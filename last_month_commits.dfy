/**
 The rolling commit counter (countLastMonthCommits in routes/Contributions.js):
 flatten users -> repositories -> commits into one list, keep the records of
 the last 30 days, and add up their commit counts. The fetched users and the
 reference time are parameters.
 */
module LastMonthCommits {
  import opened Wrappers
  import opened CommitWindow

  /**
   A repository bucket of a user's commit contributions. The source also
   stores the repository's name, star count and URL, which the counter never
   reads.
   */
  datatype Repo = Repo(commits: seq<Commit>)

  /** A user as fetched with only the `commit_contributions` field projected. */
  datatype User = User(commitContributions: seq<Repo>)

  // ---------------------------------------------------------------------------
  // Specification functions
  // ---------------------------------------------------------------------------

  /** The commits of a sequence of repositories, repository by repository. */
  function RepoCommits(repos: seq<Repo>): seq<Commit>
  {
    if repos == [] then []
    else
      var n := |repos| - 1;
      RepoCommits(repos[..n]) + repos[n].commits
  }

  /** The commits of all users, in user-then-repository-then-commit order. */
  function Flatten(users: seq<User>): seq<Commit>
  {
    if users == [] then []
    else
      var n := |users| - 1;
      Flatten(users[..n]) + RepoCommits(users[n].commitContributions)
  }

  /** The sum of `commitCount` over a list of records. */
  function SumOfCounts(s: seq<Commit>): int
  {
    if s == [] then 0
    else
      var n := |s| - 1;
      SumOfCounts(s[..n]) + s[n].commitCount
  }

  /** What one record adds to the counter: its count if in the window, else 0. */
  function Weight(c: Commit, now: int): int
  {
    if InWindow(c, now) then c.commitCount else 0
  }

  /** The sum of the weights of a list of records, without filtering first. */
  function WindowedCount(s: seq<Commit>, now: int): int
  {
    if s == [] then 0
    else
      var n := |s| - 1;
      WindowedCount(s[..n], now) + Weight(s[n], now)
  }

  /** Per-repository sum of the windowed counts. */
  function ReposWindowedCount(repos: seq<Repo>, now: int): int
  {
    if repos == [] then 0
    else
      var n := |repos| - 1;
      ReposWindowedCount(repos[..n], now) + WindowedCount(repos[n].commits, now)
  }

  /** Per-user sum of the per-repository sums. */
  function UsersWindowedCount(users: seq<User>, now: int): int
  {
    if users == [] then 0
    else
      var n := |users| - 1;
      UsersWindowedCount(users[..n], now) + ReposWindowedCount(users[n].commitContributions, now)
  }

  /** The total number of commit records over all repositories of all users. */
  function TotalRecords(users: seq<User>): nat
  {
    if users == [] then 0
    else
      var n := |users| - 1;
      TotalRecords(users[..n]) + RepoRecords(users[n].commitContributions)
  }

  function RepoRecords(repos: seq<Repo>): nat
  {
    if repos == [] then 0
    else
      var n := |repos| - 1;
      RepoRecords(repos[..n]) + |repos[n].commits|
  }

  /** What the counter computes: flatten, filter, sum. */
  function LastMonthCount(users: seq<User>, now: int): int
  {
    SumOfCounts(GetLast30DaysCommits(Flatten(users), now))
  }

  // ---------------------------------------------------------------------------
  // The counter
  // ---------------------------------------------------------------------------

  /**
   Three nested loops push every commit of every repository of every user
   onto `commitsList`; the list is filtered to the window; a fourth loop adds
   up the survivors' `commitCount`.
   */
  method CountLastMonthCommits(users: seq<User>, now: int) returns (count: int)
    ensures count == LastMonthCount(users, now)
  {
    var commitsList: seq<Commit> := [];
    for i := 0 to |users|
      invariant commitsList == Flatten(users[..i])
    {
      var user := users[i];
      for j := 0 to |user.commitContributions|
        invariant commitsList == Flatten(users[..i]) + RepoCommits(user.commitContributions[..j])
      {
        var repo := user.commitContributions[j];
        for k := 0 to |repo.commits|
          invariant commitsList
                 == Flatten(users[..i]) + RepoCommits(user.commitContributions[..j]) + repo.commits[..k]
        {
          commitsList := commitsList + [repo.commits[k]];
        }
        assert repo.commits[..|repo.commits|] == repo.commits;
        assert user.commitContributions[..j + 1][..j] == user.commitContributions[..j];
      }
      assert user.commitContributions[..|user.commitContributions|] == user.commitContributions;
      assert users[..i + 1][..i] == users[..i];
    }
    assert users[..|users|] == users;

    var lastMonthsCommits := GetLast30DaysCommits(commitsList, now);

    count := 0;
    for k := 0 to |lastMonthsCommits|
      invariant count == SumOfCounts(lastMonthsCommits[..k])
    {
      assert lastMonthsCommits[..k + 1][..k] == lastMonthsCommits[..k];
      count := count + lastMonthsCommits[k].commitCount;
    }
    assert lastMonthsCommits[..|lastMonthsCommits|] == lastMonthsCommits;
  }

  // ---------------------------------------------------------------------------
  // Flattening
  // ---------------------------------------------------------------------------

  lemma {:induction false} RepoCommitsAppend(a: seq<Repo>, b: seq<Repo>)
    ensures RepoCommits(a + b) == RepoCommits(a) + RepoCommits(b)
    decreases |b|
  {
    if b == [] {
      assert a + b == a;
    } else {
      var n := |b| - 1;
      assert (a + b)[..|a + b| - 1] == a + b[..n];
      RepoCommitsAppend(a, b[..n]);
    }
  }

  lemma FlattenSnoc(users: seq<User>, u: User)
    ensures Flatten(users + [u]) == Flatten(users) + RepoCommits(u.commitContributions)
  {
    assert (users + [u])[..|users|] == users;
  }

  /** Flattening a concatenation of user lists concatenates their flattenings. */
  lemma {:induction false} FlattenAppend(a: seq<User>, b: seq<User>)
    ensures Flatten(a + b) == Flatten(a) + Flatten(b)
    decreases |b|
  {
    if b == [] {
      assert a + b == a;
    } else {
      var n := |b| - 1;
      assert a + b == (a + b[..n]) + [b[n]];
      assert b == b[..n] + [b[n]];
      FlattenSnoc(a + b[..n], b[n]);
      FlattenSnoc(b[..n], b[n]);
      FlattenAppend(a, b[..n]);
    }
  }

  /** Flattening one user gives that user's repositories' commits in order. */
  lemma FlattenSingle(u: User)
    ensures Flatten([u]) == RepoCommits(u.commitContributions)
  {
    assert [u][..0] == [];
  }

  /** Flattening one repository gives its commits unchanged. */
  lemma RepoCommitsSingle(r: Repo)
    ensures RepoCommits([r]) == r.commits
  {
    assert [r][..0] == [];
  }

  lemma {:induction false} RepoCommitsMembership(repos: seq<Repo>, c: Commit)
    ensures c in RepoCommits(repos) <==> exists r :: r in repos && c in r.commits
  {
    if repos != [] {
      var n := |repos| - 1;
      RepoCommitsMembership(repos[..n], c);
      assert repos == repos[..n] + [repos[n]];
      if c in RepoCommits(repos) {
        if c !in RepoCommits(repos[..n]) {
          assert repos[n] in repos && c in repos[n].commits;
        }
      } else {
        forall r | r in repos ensures c !in r.commits {
          if r != repos[n] {
            assert r in repos[..n];
          }
        }
      }
    }
  }

  /** A record is in the flattened list exactly when some repository of some user holds it. */
  lemma {:induction false} FlattenMembership(users: seq<User>, c: Commit)
    ensures c in Flatten(users) <==>
            exists u, r :: u in users && r in u.commitContributions && c in r.commits
  {
    if users != [] {
      var n := |users| - 1;
      FlattenMembership(users[..n], c);
      RepoCommitsMembership(users[n].commitContributions, c);
      assert users == users[..n] + [users[n]];
      if c in Flatten(users) {
        if c !in Flatten(users[..n]) {
          var r :| r in users[n].commitContributions && c in r.commits;
          assert users[n] in users;
        } else {
          var u, r :| u in users[..n] && r in u.commitContributions && c in r.commits;
          assert u in users;
        }
      } else {
        forall u, r | u in users && r in u.commitContributions ensures c !in r.commits {
          if u != users[n] {
            assert u in users[..n];
          }
        }
      }
    }
  }

  lemma {:induction false} RepoCommitsLength(repos: seq<Repo>)
    ensures |RepoCommits(repos)| == RepoRecords(repos)
  {
    if repos != [] {
      RepoCommitsLength(repos[..|repos| - 1]);
    }
  }

  /** The flattened list holds as many records as all repositories together. */
  lemma {:induction false} FlattenLength(users: seq<User>)
    ensures |Flatten(users)| == TotalRecords(users)
  {
    if users != [] {
      var n := |users| - 1;
      FlattenLength(users[..n]);
      RepoCommitsLength(users[n].commitContributions);
    }
  }

  // ---------------------------------------------------------------------------
  // Sums
  // ---------------------------------------------------------------------------

  lemma {:induction false} SumOfCountsAppend(a: seq<Commit>, b: seq<Commit>)
    ensures SumOfCounts(a + b) == SumOfCounts(a) + SumOfCounts(b)
    decreases |b|
  {
    if b == [] {
      assert a + b == a;
    } else {
      var n := |b| - 1;
      assert (a + b)[..|a + b| - 1] == a + b[..n];
      SumOfCountsAppend(a, b[..n]);
    }
  }

  lemma {:induction false} WindowedCountAppend(a: seq<Commit>, b: seq<Commit>, now: int)
    ensures WindowedCount(a + b, now) == WindowedCount(a, now) + WindowedCount(b, now)
    decreases |b|
  {
    if b == [] {
      assert a + b == a;
    } else {
      var n := |b| - 1;
      assert (a + b)[..|a + b| - 1] == a + b[..n];
      WindowedCountAppend(a, b[..n], now);
    }
  }

  /**
   Summing the survivors of the filter is summing every record's weight:
   the in-window records contribute their count, all others nothing.
   */
  lemma {:induction false} FilteredSumIsWindowedCount(s: seq<Commit>, now: int)
    ensures SumOfCounts(GetLast30DaysCommits(s, now)) == WindowedCount(s, now)
  {
    if s != [] {
      var n := |s| - 1;
      assert s == s[..n] + [s[n]];
      FilterAppend(s[..n], [s[n]], now);
      assert [s[n]][1..] == [];
      var tail := GetLast30DaysCommits([s[n]], now);
      assert tail == if InWindow(s[n], now) then [s[n]] else [];
      SumOfCountsAppend(GetLast30DaysCommits(s[..n], now), tail);
      assert SumOfCounts(tail) == Weight(s[n], now) by {
        if tail != [] {
          assert tail[..0] == [];
        }
      }
      FilteredSumIsWindowedCount(s[..n], now);
    }
  }

  lemma {:induction false} RepoCommitsWindowedCount(repos: seq<Repo>, now: int)
    ensures WindowedCount(RepoCommits(repos), now) == ReposWindowedCount(repos, now)
  {
    if repos != [] {
      var n := |repos| - 1;
      WindowedCountAppend(RepoCommits(repos[..n]), repos[n].commits, now);
      RepoCommitsWindowedCount(repos[..n], now);
    }
  }

  /** Windowed count of the flattened list equals the nested per-user, per-repository sum. */
  lemma {:induction false} FlattenWindowedCount(users: seq<User>, now: int)
    ensures WindowedCount(Flatten(users), now) == UsersWindowedCount(users, now)
  {
    if users != [] {
      var n := |users| - 1;
      WindowedCountAppend(Flatten(users[..n]), RepoCommits(users[n].commitContributions), now);
      FlattenWindowedCount(users[..n], now);
      RepoCommitsWindowedCount(users[n].commitContributions, now);
    }
  }

  /**
   The counter's result is the sum of `commitCount` over exactly the
   flattened records that lie in the window, and equally the sum over users
   of the sum over their repositories of the in-window counts.
   */
  lemma LastMonthCountCharacterized(users: seq<User>, now: int)
    ensures LastMonthCount(users, now) == WindowedCount(Flatten(users), now)
    ensures LastMonthCount(users, now) == UsersWindowedCount(users, now)
  {
    FilteredSumIsWindowedCount(Flatten(users), now);
    FlattenWindowedCount(users, now);
  }

  // ---------------------------------------------------------------------------
  // Zero cases, sign and monotonicity
  // ---------------------------------------------------------------------------

  /** With no users there is nothing to count. */
  lemma NoUsersCountZero(now: int)
    ensures LastMonthCount([], now) == 0
  {
  }

  /** Users whose repositories hold no commits give a zero count. */
  lemma {:induction false} NoCommitsCountZero(users: seq<User>, now: int)
    requires forall u, r :: u in users && r in u.commitContributions ==> r.commits == []
    ensures LastMonthCount(users, now) == 0
  {
    if Flatten(users) != [] {
      var c := Flatten(users)[0];
      FlattenMembership(users, c);
      assert false;
    }
  }

  /** When no record lies in the window the count is zero. */
  lemma NothingInWindowCountZero(users: seq<User>, now: int)
    requires forall c :: c in Flatten(users) ==> !InWindow(c, now)
    ensures LastMonthCount(users, now) == 0
  {
    WindowedCountZero(Flatten(users), now);
    LastMonthCountCharacterized(users, now);
  }

  lemma {:induction false} WindowedCountZero(s: seq<Commit>, now: int)
    requires forall c :: c in s ==> !InWindow(c, now)
    ensures WindowedCount(s, now) == 0
  {
    if s != [] {
      var n := |s| - 1;
      assert s[n] in s;
      assert forall c :: c in s[..n] ==> c in s;
      WindowedCountZero(s[..n], now);
    }
  }

  lemma {:induction false} WindowedCountNonNegative(s: seq<Commit>, now: int)
    requires forall c :: c in s ==> c.commitCount >= 0
    ensures WindowedCount(s, now) >= 0
  {
    if s != [] {
      var n := |s| - 1;
      assert forall c :: c in s[..n] ==> c in s;
      assert s[n] in s;
      WindowedCountNonNegative(s[..n], now);
    }
  }

  /** Non-negative commit counts give a non-negative total. */
  lemma NonNegativeCount(users: seq<User>, now: int)
    requires forall u, r, c :: u in users && r in u.commitContributions && c in r.commits
                               ==> c.commitCount >= 0
    ensures LastMonthCount(users, now) >= 0
  {
    forall c | c in Flatten(users) ensures c.commitCount >= 0 {
      FlattenMembership(users, c);
    }
    WindowedCountNonNegative(Flatten(users), now);
    LastMonthCountCharacterized(users, now);
  }

  /** The users after inserting `c` at position `p` of repository `j` of user `i`. */
  function InsertCommit(users: seq<User>, i: nat, j: nat, p: nat, c: Commit): (users': seq<User>)
    requires i < |users| && j < |users[i].commitContributions|
    requires p <= |users[i].commitContributions[j].commits|
  {
    var repos := users[i].commitContributions;
    var commits := repos[j].commits;
    var repo' := Repo(commits[..p] + [c] + commits[p..]);
    users[i := User(repos[j := repo'])]
  }

  lemma {:induction false} ReposWindowedCountAppend(a: seq<Repo>, b: seq<Repo>, now: int)
    ensures ReposWindowedCount(a + b, now) == ReposWindowedCount(a, now) + ReposWindowedCount(b, now)
    decreases |b|
  {
    if b == [] {
      assert a + b == a;
    } else {
      var n := |b| - 1;
      assert (a + b)[..|a + b| - 1] == a + b[..n];
      ReposWindowedCountAppend(a, b[..n], now);
    }
  }

  lemma {:induction false} UsersWindowedCountAppend(a: seq<User>, b: seq<User>, now: int)
    ensures UsersWindowedCount(a + b, now) == UsersWindowedCount(a, now) + UsersWindowedCount(b, now)
    decreases |b|
  {
    if b == [] {
      assert a + b == a;
    } else {
      var n := |b| - 1;
      assert (a + b)[..|a + b| - 1] == a + b[..n];
      UsersWindowedCountAppend(a, b[..n], now);
    }
  }

  /** Replacing one element of a sequence changes its sum by the element's difference. */
  lemma ReposWindowedCountUpdate(repos: seq<Repo>, j: nat, r: Repo, now: int)
    requires j < |repos|
    ensures ReposWindowedCount(repos[j := r], now)
         == ReposWindowedCount(repos, now) - WindowedCount(repos[j].commits, now) + WindowedCount(r.commits, now)
  {
    var pre, post := repos[..j], repos[j + 1..];
    assert repos == pre + [repos[j]] + post;
    assert repos[j := r] == pre + [r] + post;
    ReposWindowedCountAppend(pre + [repos[j]], post, now);
    ReposWindowedCountAppend(pre, [repos[j]], now);
    ReposWindowedCountAppend(pre + [r], post, now);
    ReposWindowedCountAppend(pre, [r], now);
    assert [repos[j]][..0] == [] && [r][..0] == [];
  }

  lemma UsersWindowedCountUpdate(users: seq<User>, i: nat, u: User, now: int)
    requires i < |users|
    ensures UsersWindowedCount(users[i := u], now)
         == UsersWindowedCount(users, now)
            - ReposWindowedCount(users[i].commitContributions, now)
            + ReposWindowedCount(u.commitContributions, now)
  {
    var pre, post := users[..i], users[i + 1..];
    assert users == pre + [users[i]] + post;
    assert users[i := u] == pre + [u] + post;
    UsersWindowedCountAppend(pre + [users[i]], post, now);
    UsersWindowedCountAppend(pre, [users[i]], now);
    UsersWindowedCountAppend(pre + [u], post, now);
    UsersWindowedCountAppend(pre, [u], now);
    assert [users[i]][..0] == [] && [u][..0] == [];
  }

  /**
   Adding one commit record anywhere in the nested structure changes the
   count by that record's weight: an in-window record adds its commitCount
   (so a non-negative one never decreases the count), any other record
   leaves the count unchanged.
   */
  lemma AddCommitChangesCountByWeight(users: seq<User>, i: nat, j: nat, p: nat, c: Commit, now: int)
    requires i < |users| && j < |users[i].commitContributions|
    requires p <= |users[i].commitContributions[j].commits|
    ensures LastMonthCount(InsertCommit(users, i, j, p, c), now)
         == LastMonthCount(users, now) + Weight(c, now)
    ensures InWindow(c, now) && c.commitCount >= 0
            ==> LastMonthCount(InsertCommit(users, i, j, p, c), now) >= LastMonthCount(users, now)
    ensures !InWindow(c, now)
            ==> LastMonthCount(InsertCommit(users, i, j, p, c), now) == LastMonthCount(users, now)
  {
    var repos := users[i].commitContributions;
    var commits := repos[j].commits;
    var commits' := commits[..p] + [c] + commits[p..];
    assert commits == commits[..p] + commits[p..];
    WindowedCountAppend(commits[..p] + [c], commits[p..], now);
    WindowedCountAppend(commits[..p], [c], now);
    WindowedCountAppend(commits[..p], commits[p..], now);
    assert [c][..0] == [];
    assert WindowedCount(commits', now) == WindowedCount(commits, now) + Weight(c, now);
    ReposWindowedCountUpdate(repos, j, Repo(commits'), now);
    UsersWindowedCountUpdate(users, i, User(repos[j := Repo(commits')]), now);
    LastMonthCountCharacterized(users, now);
    LastMonthCountCharacterized(InsertCommit(users, i, j, p, c), now);
  }
}
