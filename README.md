# Rolling 30-day commit counter of contributions-api

This project models, in Dafny, the commit counter behind the `/contributions`
endpoint of contributions-api (`routes/Contributions.js`). It has two parts:

- `GetLast30DaysCommits` is the window filter. It keeps the commit records
  whose `occurredAt` lies in the closed interval `[now - 30 days, now]`, in
  their original order. A record whose time does not parse is always dropped.
  This becomes `CommitWindow.GetLast30DaysCommits`, a function over `seq`
  (file `commit_window.dfy`).
- `countLastMonthCommits` fetches every user's `commit_contributions`. Three
  nested loops push every commit record of every repository of every user
  onto one list. The list goes through the window filter, and a fourth loop
  adds up `commitCount` over the survivors. This becomes the method
  `LastMonthCommits.CountLastMonthCommits` with the same four loops (file
  `last_month_commits.dfy`). It is proved equal to the specification function
  `LastMonthCount`, which is flatten, then filter, then sum.

Modelling choices:

- Timestamps are integer milliseconds. `occurredAt` is an `Option<int>`, and
  `None` stands for a string that makes an Invalid Date.
- The reference time `now` is a parameter. The source reads the clock inside
  the filter.
- The fetched users are a parameter, `seq<User>`. Each user holds a
  `seq<Repo>` and each repository holds a `seq<Commit>`.
- The specification functions (`Flatten`, `SumOfCounts`, the windowed sums)
  recurse on the last element, in the order the loops push and add.

## Model

| member | source | states |
|---|---|---|
| `CommitWindow.WindowStart` | routes/Contributions.js:9-13 | The lower bound of the window lies strictly before the reference time. |
| `CommitWindow.GetLast30DaysCommits` | routes/Contributions.js:8-26 | The filter never grows the list. A record is in the result if and only if it is in the input and inside the closed window. Unparseable times are never inside. |
| `CommitWindow.WindowBounds` | routes/Contributions.js:9-22 | A single record is kept exactly when its time parses and lies between now minus 2 592 000 000 ms (30 days) and now, both ends included. |
| `CommitWindow.FilterSelectsInWindowPositions` | routes/Contributions.js:15-25 | The result is the input taken at the strictly increasing positions of the in-window records, so it keeps their relative order. Each kept record is unchanged. |
| `CommitWindow.InWindowPositionsExact` | routes/Contributions.js:15-22 | A position is selected if and only if its record is in the window. So the filter drops exactly the out-of-window and unparseable records. |
| `CommitWindow.FilterSnoc` | routes/Contributions.js:15-23 | Filtering one more record appends it exactly when it is in the window. |
| `CommitWindow.FilterAppend` | routes/Contributions.js:15-23 | Filtering a concatenation equals concatenating the filtered parts. The filter decides record by record. |
| `CommitWindow.FilterIdempotent` | routes/Contributions.js:15-25 | Filtering twice with the same reference time gives the same result as filtering once. |
| `LastMonthCommits.CountLastMonthCommits` | routes/Contributions.js:28-45 | The four loops compute flatten, filter and sum exactly: the result equals `LastMonthCount(users, now)`. |
| `LastMonthCommits.FlattenSnoc` | routes/Contributions.js:31-36 | Visiting one more user appends that user's commits, repository by repository, after the commits collected so far. |
| `LastMonthCommits.FlattenAppend` | routes/Contributions.js:31-37 | Flattening a concatenation of user lists concatenates their flattened lists, so users are visited in order. |
| `LastMonthCommits.RepoCommitsAppend` | routes/Contributions.js:32-36 | Within one user, repositories are visited in order: flattening concatenated repository lists concatenates their commits. |
| `LastMonthCommits.FlattenSingle` | routes/Contributions.js:31-36 | One user contributes the commits of their repositories, repository by repository. |
| `LastMonthCommits.RepoCommitsSingle` | routes/Contributions.js:32-35 | One repository contributes its commits, in order and unchanged. |
| `LastMonthCommits.FlattenMembership` | routes/Contributions.js:30-37 | A record is in the flattened list if and only if some repository of some user holds it. |
| `LastMonthCommits.FlattenLength` | routes/Contributions.js:30-37 | The flattened list has as many records as all repositories of all users together. |
| `LastMonthCommits.FilteredSumIsWindowedCount` | routes/Contributions.js:38-44 | Summing `commitCount` over the filter's survivors equals summing, over every record, its count when in the window and 0 otherwise. |
| `LastMonthCommits.LastMonthCountCharacterized` | routes/Contributions.js:28-45 | The count equals the sum of `commitCount` over exactly the flattened records in the window. It also equals the per-user sum of per-repository in-window sums. |
| `LastMonthCommits.NoUsersCountZero` | routes/Contributions.js:40-44 | With no users the count is 0. |
| `LastMonthCommits.NoCommitsCountZero` | routes/Contributions.js:30-44 | When no repository of any user holds a commit record, the count is 0. |
| `LastMonthCommits.NothingInWindowCountZero` | routes/Contributions.js:38-44 | When no flattened record lies in the window, the count is 0. |
| `LastMonthCommits.WindowedCountZero` | routes/Contributions.js:40-43 | A list with no in-window record has a windowed sum of 0. |
| `LastMonthCommits.NonNegativeCount` | routes/Contributions.js:40-44 | If every `commitCount` is non-negative, the count is non-negative. |
| `LastMonthCommits.AddCommitChangesCountByWeight` | routes/Contributions.js:30-44 | Inserting one record anywhere in any repository of any user changes the count by exactly that record's count if it is in the window, and by 0 otherwise. So a non-negative in-window record never decreases the count, and an out-of-window record leaves it unchanged. |

## Left out

- The HTTP route and its response (`routes/Contributions.js:65-71`): plumbing around the count.
- The database fetch `User.find({}, "commit_contributions")` (`routes/Contributions.js:29`) and the `await` around it: the fetched users are a parameter.
- Reading the clock (`new Date()` at `routes/Contributions.js:9`): the reference time is a parameter.
- Date parsing and the local-time `setDate` arithmetic (`routes/Contributions.js:9-13`). The window start is a fixed `30 * 86 400 000` ms before the reference time. The source moves back 30 calendar days in local time, so a daylight-saving change inside the window shifts the real bound by one hour.
- JavaScript numbers are doubles. The count is an unbounded integer here, so precision loss above 2^53 is not modelled. Neither are times outside the range a `Date` can hold.
- A record without `commitCount` adds `undefined` in the source, which turns the count into NaN. The model gives every record an integer `commitCount`.
- A repository without a `commits` array makes the source's loop throw a TypeError. The model gives every repository a (possibly empty) sequence of commits.
- The other fields of a repository bucket (name, stars, URL) are never read by the counter and are not modelled.
