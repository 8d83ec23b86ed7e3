# GitHub contributor statistics, modelled in Dafny

This project models the core of a small command-line tool. The tool asks the
GitHub REST API for a repository's contributor statistics and prints a
plain-text report. The model covers six parts:

- **The statistics poller** (`Client`, with its properties in
  `PollProperties`). GitHub answers `202 Accepted` while it is still computing
  the statistics. The client polls `repos/{owner}/{repository}/stats/contributors`
  until the statistics arrive, with a delay after each 202 and at most
  `MaxStatAttempts` requests (60 by default, with a 2000 ms delay). A
  non-empty token installs a `Bearer` header first.
  - `GitHubClient` is a class whose loop is proved against `Poll`, a
    state-machine function.
  - `Poll` is in turn proved equal to `PollFrom`, a recursive reference
    definition.
  - Everything the loop promises (bounds, the all-202 and all-`null` runs,
    the trace of a poll) is proved about those functions.
- **The wire records** (`ClientModel`): the author, the weekly counts and the
  contributor entry that the endpoint's JSON decodes into.
- **The aggregation** (`Services`, `LegacyServices`). Both service variants
  map the client's entries, in order, to summaries. A summary holds the
  login and the sums of the weekly commits, additions and deletions. The
  payload's own `total` is ignored. Both variants run one shared loop,
  `Services.AppendSummaries`, specified by one function, `Services.Summaries`.
- **The summary record** (`CoreModel`). Its `LinesChanged` is added up on
  every read, with 32-bit wrap-around.
- **The Unix timestamp converter** (`UnixTime`). It converts between whole
  seconds since 1970-01-01T00:00:00Z and a UTC civil date-time on the
  proleptic Gregorian calendar.
  - `Write` is the "Seconds Since the Epoch" expression of POSIX.1-2017, Base
    Definitions section 4.16, written with floor division so that it holds for
    every year.
  - `Read` is its inverse: a year walk from the 400-year era the day falls in,
    then a month walk.
  - The two are proved inverse both ways and order-preserving.
- **The command-line parser and the report formatter** (`CommandLine`,
  `Formatting`).
  - `CommandLine.Parse` is the parser's loop, with early returns, proved
    equal to the function `ParseArgs`.
  - `Formatting.FormatReport` appends six lines per contributor to a string
    builder, and is proved equal to the text of `ReportLines`.

`SeqFacts` holds small, generic facts about sequences that the proofs use, and `FlatMap`, which lays the report's blocks end to end.
`Wrappers` holds `Option`, `Result` and `Outcome`. A thrown exception is
modelled as a `Failure` or `Fail` value carrying what was thrown.

The HTTP transport is a class, `Client.HttpClient`. It logs every request it
sends, together with the `Authorization` header it carried. It answers the
n-th request with `Endpoint.Respond(n)`: a finite script of responses,
followed by one response repeated forever. A poll sends a bounded number of
requests, so every run it can observe is one of these. Each response is
modelled as a status code and a body:

- a decoded list;
- the JSON literal `null`;
- a body that does not decode.

A delay is recorded in the client's `delays` log, never waited.

## Model

| member | source | states |
|---|---|---|
| `Client.HttpClient.GetAsync` | src/GitHub.Client/GitHubClient.cs:62 | The request is appended to the transport's log with the current `Authorization` header, and the response is the endpoint's answer to that request's position in the log. |
| `Client.GitHubClient.constructor` | src/GitHub.Client/GitHubClient.cs:21-34 | The client keeps the given transport. It starts with `MaxStatAttempts` = 60 and `RetryDelay` = 2000, and no delay is recorded yet. |
| `Client.GitHubClient.Attempt` | src/GitHub.Client/GitHubClient.cs:62-79 | One pass of the loop sends exactly one request to the URI. A 202 on the last permitted attempt stops with the retry exception and waits nothing. An earlier 202 records one delay of `RetryDelay` and goes round again. A status outside 2xx stops with that status. A `null` body goes round again without a delay. A decoded body stops with the statistics. |
| `Client.GitHubClient.PollStatistics` | src/GitHub.Client/GitHubClient.cs:56-82 | The loop returns `Poll(...).result`, sends `Poll(...).requests` requests to the one URI with the header unchanged, and records `Poll(...).delays` delays of `RetryDelay`. |
| `Client.GitHubClient.GetContributorStatistics` | src/GitHub.Client/GitHubClient.cs:46-83 | A non-empty token installs `Bearer <token>` before the loop; a missing or empty token leaves the header as it was. Every request then goes to `repos/{owner}/{repository}/stats/contributors` with that header. The result, the request count and the delays are those of `Poll`. |
| `Client.StepOf` | src/GitHub.Client/GitHubClient.cs:64-79 | The poller goes round again exactly after a 202 that is not on the last attempt, or after a 2xx other than 202 whose body is `null`. It waits one delay exactly when the response was a 202, and none otherwise. A stop after a 202 is the retry exception naming the limit. A stop after a status outside 2xx is that status. A successful stop carries exactly the decoded body. |
| `Client.PollFrom` | src/GitHub.Client/GitHubClient.cs:57-82 | From request `made` on, with no attempt left the poll sends nothing and yields an empty list. Otherwise it sends between one request and the number of attempts left, and waits fewer times than it sends. |
| `Client.RunMatchesPollFrom` | src/GitHub.Client/GitHubClient.cs:60-80 | From any undecided state, the loop's state machine reaches the result, request count and delay count of the recursive reference definition. |
| `Client.Poll` | src/GitHub.Client/GitHubClient.cs:57-82 | The poll the loop follows equals the reference poll from the first request. It never sends more than `MaxStatAttempts` requests. A limit of zero or less sends no request and returns an empty collection. Otherwise at least one request is sent, and there is at most one delay between each two requests and none after the last. |
| `PollProperties.PollFromTrace` | src/GitHub.Client/GitHubClient.cs:60-80 | From request `made` on: every response before the last is a 202 or a `null` body, and there is exactly one delay per 202 among them. A poll that ends before the limit ends on a response that stops it, and the last response decides the result. |
| `PollProperties.PollTrace` | src/GitHub.Client/GitHubClient.cs:60-82 | The same trace for a whole poll, from the first request. |
| `PollProperties.AlwaysAcceptedFrom` | src/GitHub.Client/GitHubClient.cs:64-73 | From request `made` on, an endpoint that always answers 202 uses every remaining attempt and waits between each two. It ends with the retry exception. |
| `PollProperties.AlwaysAccepted` | src/GitHub.Client.Tests/GitHubClientTests.cs:276-306 | With every response 202 and any positive limit, exactly `MaxStatAttempts` requests are sent and `MaxStatAttempts - 1` delays are recorded, and the call fails with the retry exception naming the limit. |
| `PollProperties.AlwaysNullFrom` | src/GitHub.Client/GitHubClient.cs:79-82 | From request `made` on, success responses whose body is `null` use every remaining attempt without any delay, and the result is an empty list. |
| `PollProperties.AlwaysNull` | src/GitHub.Client/GitHubClient.cs:60-82 | With every body `null`, all `MaxStatAttempts` requests are sent, nothing is waited, and an empty collection is returned. |
| `PollProperties.AcceptedThenStatistics` | src/GitHub.Client.Tests/GitHubClientTests.cs:248-267 | A 202 followed by a success with decoded statistics gives two requests and one delay. The statistics are returned exactly as decoded, each entry's own `total` included. |
| `PollProperties.FailingStatus` | src/GitHub.Client/GitHubClient.cs:77 | A first status outside 2xx other than 202 ends the call with that status: one request, no delay, no retry. |
| `PollProperties.DefaultBudget` | src/GitHub.Client/GitHubClient.cs:29-34 | With the defaults, at most 60 requests are sent and at most 118000 ms of delay are recorded. |
| `CoreModel.ContributorStatistics.LinesChanged` | src/GitHubStats.Core/Model/ContributorStatistics.cs:50-56 | The result is an int32 that is congruent to lines added plus lines deleted modulo 2^32. It equals that sum whenever the sum fits in an int32. |
| `CoreModel.LinesChangedDerived` | src/GitHubStats.Core/Model/ContributorStatistics.cs:50-56 | `LinesChanged` is not stored: two summaries with the same added and deleted counts have the same `LinesChanged`. |
| `CoreModel.DefaultIsEmpty` | src/GitHubStats.Core/Model/ContributorStatistics.cs:11-42 | A default summary has no username, zero counts and zero lines changed. |
| `CoreModel.LinesChangedOverflow` | src/GitHubStats.Core/Model/ContributorStatistics.cs:54 | 2147483647 lines added and 1 deleted read as -2147483648 lines changed (unchecked int32 addition). |
| `CoreModel.RepositoryStatistics.constructor` | src/GitHubStats.Model/RepositoryStatistics.cs:16 | New repository statistics hold no contributors. |
| `Services.Summarize` | src/GitHubStats.Core/Services/GitHubService.cs:39-45 | A summary's username is the entry's login. Its lines added plus lines deleted equal the additions and deletions of all weeks summed. An entry without weeks gives zero commits, additions and deletions. |
| `Services.Summaries` | src/GitHubStats.Core/Services/GitHubService.cs:37-48 | There is one summary per entry, in the entries' order, and the i-th is the summary of the i-th entry. An empty client result gives an empty list. |
| `Services.TotalAppend` | src/GitHubStats.Core/Services/GitHubService.cs:42-44 | The sum over two runs of weeks is the sum of the two sums. |
| `Services.TotalPermutation` | src/GitHubStats.Core/Services/GitHubService.cs:42-44 | A sum does not depend on the order of the weeks: equal multisets of weeks give equal sums. |
| `Services.TotalsMakeChurn` | src/GitHubStats.Core/Services/GitHubService.cs:43-44 | The summed additions plus the summed deletions equal the per-week additions-plus-deletions summed. |
| `Services.TotalNonNegative` | src/GitHubStats.Core/Services/GitHubService.cs:42-44 | Weeks whose counts are all zero or more give a sum that is zero or more. |
| `Services.SummariesAppend` | src/GitHubStats.Core/Services/GitHubService.cs:37-48 | The summaries of two concatenated lists of entries are the two lists of summaries concatenated. |
| `Services.SummaryOfEntry` | src/GitHubStats.Core/Services/GitHubService.cs:39-45 | A summary depends only on the login and on the multiset of weeks. It does not depend on the weeks' order or on the payload's `total`. |
| `Services.NoWeeksNoLines` | src/GitHubStats.Core/Services/GitHubService.cs:42-44 | A contributor without weeks gets zero commits, zero lines added and deleted, and zero lines changed. |
| `Services.SummaryLinesChanged` | src/GitHubStats.Core/Services/GitHubService.cs:43-44 | When the per-week churn fits in an int32, a summary's lines changed equals that churn summed. |
| `Services.SampleSummary` | src/GitHub.Client.Tests/GitHubClientTests.cs:46-85 | The sample entry (login `octocat`, `total` 15, two weeks of 6898/77/10 and 5000/50/5) gives 15 commits, 11898 lines added, 127 deleted and 12025 changed. |
| `Services.AppendSummaries` | src/GitHubStats.Core/Services/GitHubService.cs:37-48 | The loop appends exactly `Summaries(entries)` to the repository's contributor list. |
| `Services.GitHubService.constructor` | src/GitHubStats.Core/Services/GitHubService.cs:17-20 | The service keeps the client it is given. |
| `Services.GitHubService.GetContributorStatistics` | src/GitHubStats.Core/Services/GitHubService.cs:32-51 | A failing client call fails the same way. Otherwise the service returns new repository statistics whose contributors are `Summaries` of the client's result. Every request the call sends goes to the contributor-statistics URI with the header in force. A non-empty token installs its `Bearer` header; otherwise the header is unchanged. The delays recorded are those of `Poll`. |
| `LegacyServices.GetContributorStatistics` | src/GitHubStats.Core/GitHubService.cs:21-41 | This is the same result as the current service. It uses a client built inside the call with the default limit, over the given transport. The requests it sends and the header it leaves are those of the current service. |
| `UnixTime.YearOf` | src/Common/Json/UnixTimestampConverter.cs:24 | The year found for an epoch day is the one whose days contain it. |
| `UnixTime.CivilFromYearDay` | src/Common/Json/UnixTimestampConverter.cs:24 | The date found for a year day is a valid day of that year, and its day of the year is the one given. |
| `UnixTime.FromUnixSeconds` | src/Common/Json/UnixTimestampConverter.cs:24 | Reading `s` gives a valid date-time on epoch day `s / 86400` (floor division), at second `s % 86400` of that day. |
| `UnixTime.ToUnixSeconds` | src/Common/Json/UnixTimestampConverter.cs:37 | The number written is the date's epoch day times 86400 plus its second of the day. For a valid date-time, floor division by 86400 gives back the epoch day and the remainder the second of the day. |
| `UnixTime.EpochIsZero` | src/Common/Json/UnixTimestampConverter.cs:24 | 1970-01-01T00:00:00Z is written as 0, and 0 reads as that instant. |
| `UnixTime.Read` | src/Common/Json/UnixTimestampConverter.cs:21-25 | A non-number token fails with `InvalidOperation`. A number outside the 64-bit range fails with `Format`. Otherwise the result is a valid UTC date-time whose written form is the number read. |
| `UnixTime.JsonWriter.WriteNumberValue` | src/Common/Json/UnixTimestampConverter.cs:38 | The writer's output gains exactly the number written. |
| `UnixTime.Write` | src/Common/Json/UnixTimestampConverter.cs:33-39 | A null writer fails with `ArgumentNull` before anything is emitted. Otherwise exactly one number is emitted: the POSIX seconds since the epoch of the value. |
| `UnixTime.WriteAfterRead` | src/Common/Json/UnixTimestampConverter.cs:23-38 | Writing what was read gives back the timestamp. |
| `UnixTime.ReadAfterWrite` | src/Common/Json/UnixTimestampConverter.cs:23-38 | Reading what was written gives back the date-time. |
| `UnixTime.ReadWritten` | src/Common/Json/UnixTimestampConverter.cs:23-38 | Reading the JSON number written for a valid date-time yields that date-time. |
| `UnixTime.WriteInjective` | src/Common/Json/UnixTimestampConverter.cs:37 | Two valid date-times written as the same number are equal. |
| `UnixTime.BeforeIffEarlier` | src/Common/Json/UnixTimestampConverter.cs:37 | One valid date-time precedes another in the calendar exactly when it is written as a smaller number. |
| `UnixTime.ReadIncreasing` | src/Common/Json/UnixTimestampConverter.cs:24 | Reading is strictly increasing: a larger timestamp reads as a later date-time. |
| `UnixTime.WeekLater` | src/Common/Json/UnixTimestampConverter.cs:24 | 604800 seconds later is seven calendar days later, at the same time of day. |
| `UnixTime.SampleWeekStarts` | src/GitHub.Client.Tests/GitHubClientTests.cs:72-124 | 1367712000 reads as 2013-05-05T00:00:00Z and 1368316800 as 2013-05-12T00:00:00Z, one week apart. |
| `CommandLine.SwitchCommand` | src/GitHubStats/CommandParser.cs:41-53 | A switch that selects a command selects help or version. Any other argument fails with an invalid option naming that argument. |
| `CommandLine.BuildReportCommand` | src/GitHubStats/CommandParser.cs:62-79 | The report command is built exactly when there are at least two arguments; otherwise the call fails with the invalid-arguments error. The owner is the first argument and the repository the second. The token is set exactly when there are three arguments, and it is the third. |
| `CommandLine.ParseArgs` | src/GitHubStats/CommandParser.cs:30-60 | An invalid-option failure names a present argument that starts with `-`. A report command is only built when no argument is a switch. The invalid-arguments failure only happens when no argument is a switch and fewer than two are present. |
| `CommandLine.FirstSwitch` | src/GitHubStats/CommandParser.cs:34-54 | The index found is that of a switch, and no argument before it is a switch. Without a switch it is the length. |
| `CommandLine.SwitchDecides` | src/GitHubStats/CommandParser.cs:41-53 | The first switch decides the outcome on its own. Any non-switch arguments before it, and any arguments after it, are ignored. |
| `CommandLine.AbsentSkipped` | src/GitHubStats/CommandParser.cs:34-39 | A null or empty argument anywhere does not change the outcome. |
| `CommandLine.NullArgs` | src/GitHubStats/CommandParser.cs:34 | A null argument array parses like an empty one, and both are invalid arguments. |
| `CommandLine.PositionalArguments` | src/GitHubStats/CommandParser.cs:56-76 | Without a switch, the call fails exactly when fewer than two arguments are present, and then with the invalid-arguments error. Otherwise the owner is the first present argument and the repository the second. A token is set exactly when three are present, and it is the third; a fourth or later drops it without error. |
| `CommandLine.SwitchCaseInsensitive` | src/GitHubStats/CommandParser.cs:43 | Switches that agree in invariant lower case select the same command. |
| `CommandLine.HelpAndMalformedSwitch` | src/GitHubStats/CommandParser.cs:41-53 | `--help -x` gives help, while `-x --help` fails with an invalid option `-x`. |
| `CommandLine.UpperCaseSwitches` | src/GitHubStats/CommandParser.cs:43-50 | `--HELP` gives help, and `owner -V` gives the version command. |
| `CommandLine.Parse` | src/GitHubStats/CommandParser.cs:30-79 | The parser's loop returns exactly what `ParseArgs` decides for the arguments. |
| `Formatting.NatToDecimal` | src/GitHubStats.Reporting/Formatters/GitReportPlainTextFormatter.cs:25-28 | A number is written as at least one decimal digit, with no leading zero unless the number is zero. |
| `Formatting.IntToDecimal` | src/GitHubStats.Reporting/Formatters/GitReportPlainTextFormatter.cs:25-28 | The text of a number is not empty, and it starts with a minus sign exactly when the number is negative. |
| `Formatting.NatToDecimalRoundTrip` | src/GitHubStats.Reporting/Formatters/GitReportPlainTextFormatter.cs:25-28 | Reading back the digits written for a natural number gives that number. |
| `Formatting.IntToDecimalRoundTrip` | src/GitHubStats.Reporting/Formatters/GitReportPlainTextFormatter.cs:25-28 | The text written for any int is a numeral, and it reads back as that int. |
| `Formatting.ContributorLines` | src/GitHubStats.Reporting/Formatters/GitReportPlainTextFormatter.cs:24-29 | A contributor has six lines. The first is the username, or empty for a null username, and the last is blank. |
| `Formatting.CountLines` | src/GitHubStats.Reporting/Formatters/GitReportPlainTextFormatter.cs:25-28 | The second to fifth lines of a contributor are `Commits: `, `Lines added: `, `Lines deleted: ` and `Lines changed: `, each followed by a numeral that reads back as that count. |
| `Formatting.ReportLines` | src/GitHubStats.Reporting/Formatters/GitReportPlainTextFormatter.cs:22-30 | The report has 6 × (number of contributors) lines. |
| `Formatting.ReportLinesAppend` | src/GitHubStats.Reporting/Formatters/GitReportPlainTextFormatter.cs:22-30 | The lines for `a ++ b` are the lines for `a` followed by the lines for `b`. |
| `Formatting.ReportTextAppend` | src/GitHubStats.Reporting/Formatters/GitReportPlainTextFormatter.cs:22-32 | The text for `a ++ b` is the text for `a` followed by the text for `b`. |
| `Formatting.ReportBlock` | src/GitHubStats.Reporting/Formatters/GitReportPlainTextFormatter.cs:22-30 | Lines 6i to 6i+5 are the six lines of the i-th contributor: username, commits, lines added, lines deleted, lines changed, blank. |
| `Formatting.ReportLayout` | src/GitHubStats.Reporting/Formatters/GitReportPlainTextFormatter.cs:22-30 | Every block of six lines belongs to its contributor, so the blocks appear in list order. |
| `Formatting.LabelledNumeral` | src/GitHubStats.Reporting/Formatters/GitReportPlainTextFormatter.cs:25-28 | A count line is its caption followed by a numeral that reads back as the count. |
| `Formatting.FifthLine` | src/GitHubStats.Reporting/Formatters/GitReportPlainTextFormatter.cs:28 | In any list of lines that holds a contributor's block at block index i, line 6i+4 is `Lines changed: ` followed by a numeral that reads back as that contributor's lines changed. |
| `Formatting.LinesChangedLine` | src/GitHubStats.Reporting/Formatters/GitReportPlainTextFormatter.cs:28 | The fifth line of a contributor's block is `Lines changed: ` followed by a numeral. When the sum fits in an int32, that numeral reads back as lines added plus lines deleted. |
| `Formatting.EmptyReport` | src/GitHubStats.Reporting/Formatters/GitReportPlainTextFormatter.cs:21-32 | An empty contributor list gives the empty string. |
| `Formatting.StringBuilder.constructor` | src/GitHubStats.Reporting/Formatters/GitReportPlainTextFormatter.cs:21 | A new builder holds no text and no lines. |
| `Formatting.StringBuilder.AppendLine` | src/GitHubStats.Reporting/Formatters/GitReportPlainTextFormatter.cs:24-29 | The text grows by the value followed by the line break, and the builder's text stays the line-terminated text of its lines. |
| `Formatting.FormatReport` | src/GitHubStats.Reporting/Formatters/GitReportPlainTextFormatter.cs:17-33 | Null statistics fail with `ArgumentNull`. Otherwise the text is the report's lines, each followed by the line break. |

## Left out

- HTTP, `async`/`await` and cancellation are not modelled. The transport is the logging `HttpClient` class answering from an `Endpoint` script, and `Task.Delay` is only recorded in the client's `delays` log.
- `Client.HttpClient.GetAsync`: it resolves the relative URI against the base address, and the request URI is kept relative; header defaults set elsewhere (the user agent) are not modelled.
- `System.Text.Json` decoding is library code. A response body is modelled as already decoded into a list, a JSON `null`, or a body that fails to decode (`JsonDecode`).
- The `Author.Type` property is declared as a string while the tests expect an enumeration value. The model keeps an optional string.
- `UnixTime.Read`: `DateTimeOffset.FromUnixTimeSeconds` also throws `ArgumentOutOfRangeException` outside years 1 to 9999. The model reads every 64-bit value, on the proleptic calendar.
- `UnixTime.Write`: `new DateTimeOffset(value)` shifts a local or unspecified `DateTime` by the machine's offset, and sub-second ticks are dropped. The model takes only UTC values in whole seconds.
- Client.GitHubClient.PollStatistics, Client.GitHubClient.GetContributorStatistics: the loop counter is an int32 and `++attempts` wraps. With `MaxStatAttempts` at 2147483647 the counter wraps to -2147483648 instead of exceeding the limit, so in the source a run of `null` bodies never ends the loop. The model counts with unbounded integers, so it assumes `MaxStatAttempts` < 2147483647; the request bound of `Client.Poll` holds in the source only under that assumption. It also assumes `RetryDelay` >= 0: `Task.Delay` throws for a delay below -1 and waits forever for -1, and neither is modelled.
- `Services.Summaries`: the sums are unbounded integers. LINQ's `Sum` over `int` throws `OverflowException` when a sum leaves the int32 range, and that exception is not modelled.
- `Services.GitHubService.GetContributorStatistics`: the service holds the concrete `Client.GitHubClient` where the source holds the `IGitHubClient` interface.
- `LegacyServices.GetContributorStatistics`: the older service builds `new GitHubClient()` with no transport argument. That call does not match the client's only constructor, so the model passes the transport in.
- The two services' return types disagree (`Contributors` is a read-only list on one side, appended to on the other). The model follows the intended behaviour: a mutable contributor list in a new `RepositoryStatistics`.
- `CommandLine.LowerChar`: `ToLowerInvariant` is modelled on the ASCII letters only. No other character can turn a switch into `--help`, `-h`, `--version` or `-v`.
- The dependency-injection lookups of the parser return command values (`Help`, `Version`, `StatisticsReport`), not the command objects.
- `Formatting.IntToDecimal`: the interpolated numbers are formatted with an ASCII minus sign and digits, as the invariant culture does. Other cultures' formats are not modelled.
- `Formatting.StringBuilder`: `Environment.NewLine` is a parameter of the builder.
- Startup.cs, Program.cs, the command classes, the report generator and the console writer are I/O and wiring, and are not part of this model. The same goes for the interfaces and the `Repository` record.
