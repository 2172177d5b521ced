/**
 The rolling 30-day window over commit records (GetLast30DaysCommits in
 routes/Contributions.js): a commit is kept when its occurrence time lies in
 the closed interval [now - 30 days, now].
 */
module CommitWindow {
  import opened Wrappers

  /** Milliseconds in one day, and the length of the window in days. */
  const MsPerDay: int := 86_400_000
  const WindowDays: int := 30

  /**
   One commit record of a repository bucket. `occurredAt` is the occurrence
   time in milliseconds since the epoch, or None when the stored string does
   not parse as a date (the source then builds an Invalid Date, whose NaN
   value makes every comparison false). `commitCount` is the number of commits
   the record stands for.
   */
  datatype Commit = Commit(occurredAt: Option<int>, commitCount: int)

  /**
   The lower bound of the window: the reference time moved back 30 days.
   The source moves a local-time Date back 30 calendar days with setDate, so
   when a daylight-saving transition falls inside the window the real bound
   differs from this one by an hour; the model uses the fixed offset.
   */
  function WindowStart(now: int): (start: int)
    ensures start < now
  {
    now - WindowDays * MsPerDay
  }

  /** Both bounds are inclusive; an unparseable time is never inside. */
  predicate InWindow(c: Commit, now: int)
  {
    match c.occurredAt
    case None => false
    case Some(t) => WindowStart(now) <= t <= now
  }

  /**
   Array.filter with the window test: the in-window records, in input order.
   */
  function GetLast30DaysCommits(commits: seq<Commit>, now: int): (kept: seq<Commit>)
    ensures |kept| <= |commits|
    ensures forall c :: c in kept <==> c in commits && InWindow(c, now)
  {
    if commits == [] then []
    else
      (if InWindow(commits[0], now) then [commits[0]] else [])
      + GetLast30DaysCommits(commits[1..], now)
  }

  /**
   Independent reference for the filter: the positions of the in-window
   records, in increasing order.
   */
  function InWindowPositions(commits: seq<Commit>, now: int): (ps: seq<nat>)
  {
    if commits == [] then []
    else
      var n := |commits| - 1;
      InWindowPositions(commits[..n], now) + (if InWindow(commits[n], now) then [n] else [])
  }

  /**
   `kept` is the subsequence of `s` taken at the strictly increasing
   positions `ps`, each record unchanged.
   */
  ghost predicate OrderedSelection(kept: seq<Commit>, s: seq<Commit>, ps: seq<nat>)
  {
    && |kept| == |ps|
    && (forall k :: 0 <= k < |ps| ==> ps[k] < |s| && kept[k] == s[ps[k]])
    && (forall k, l :: 0 <= k < l < |ps| ==> ps[k] < ps[l])
  }

  /** Filtering a concatenation filters each part. */
  lemma {:induction false} FilterAppend(a: seq<Commit>, b: seq<Commit>, now: int)
    ensures GetLast30DaysCommits(a + b, now)
         == GetLast30DaysCommits(a, now) + GetLast30DaysCommits(b, now)
  {
    if a == [] {
      assert a + b == b;
    } else {
      assert (a + b)[0] == a[0];
      assert (a + b)[1..] == a[1..] + b;
      FilterAppend(a[1..], b, now);
    }
  }

  /**
   The filter returns exactly the records at the in-window positions, in
   their original order and unchanged.
   */
  lemma {:induction false} FilterSelectsInWindowPositions(commits: seq<Commit>, now: int)
    ensures OrderedSelection(GetLast30DaysCommits(commits, now), commits, InWindowPositions(commits, now))
  {
    if commits != [] {
      var n := |commits| - 1;
      var init, last := commits[..n], commits[n];
      FilterSelectsInWindowPositions(init, now);
      FilterSnoc(init, last, now);
      assert commits == init + [last];
      SnocSelection(GetLast30DaysCommits(init, now), init, InWindowPositions(init, now), last, InWindow(last, now));
    }
  }

  /** Filtering one more record appends it when it is in the window. */
  lemma FilterSnoc(s: seq<Commit>, x: Commit, now: int)
    ensures GetLast30DaysCommits(s + [x], now)
         == GetLast30DaysCommits(s, now) + (if InWindow(x, now) then [x] else [])
  {
    FilterAppend(s, [x], now);
    assert [x][1..] == [];
  }

  /**
   A position is among the in-window positions if and only if the record
   there is in the window: the filter drops exactly the out-of-window and
   unparseable records.
   */
  lemma {:induction false} InWindowPositionsExact(commits: seq<Commit>, now: int)
    ensures forall i :: 0 <= i < |commits| ==>
              (i in InWindowPositions(commits, now) <==> InWindow(commits[i], now))
    ensures forall i :: i in InWindowPositions(commits, now) ==> 0 <= i < |commits|
  {
    if commits != [] {
      var n := |commits| - 1;
      var init := commits[..n];
      InWindowPositionsExact(init, now);
      var ps0 := InWindowPositions(init, now);
      var extra := if InWindow(commits[n], now) then [n] else [];
      assert InWindowPositions(commits, now) == ps0 + extra;
      forall i | 0 <= i < |commits|
        ensures i in ps0 + extra <==> InWindow(commits[i], now)
      {
        if i < n {
          assert commits[i] == init[i];
        }
      }
    }
  }

  /** Appending the next record, selected or not, extends an ordered selection. */
  lemma SnocSelection(kept: seq<Commit>, s: seq<Commit>, ps: seq<nat>, x: Commit, take: bool)
    requires OrderedSelection(kept, s, ps)
    ensures OrderedSelection(kept + (if take then [x] else []), s + [x],
                             ps + (if take then [|s|] else []))
  {
    var s' := s + [x];
    assert forall k :: 0 <= k < |ps| ==> s'[ps[k]] == s[ps[k]];
  }

  /** Filtering twice with the same reference time is filtering once. */
  lemma {:induction false} FilterIdempotent(commits: seq<Commit>, now: int)
    ensures GetLast30DaysCommits(GetLast30DaysCommits(commits, now), now)
         == GetLast30DaysCommits(commits, now)
  {
    if commits != [] {
      var head := if InWindow(commits[0], now) then [commits[0]] else [];
      var rest := GetLast30DaysCommits(commits[1..], now);
      FilterAppend(head, rest, now);
      FilterIdempotent(commits[1..], now);
      assert GetLast30DaysCommits(head, now) == head;
    }
  }

  /**
   The window's bounds: a record is kept exactly when its time parses and
   lies between 30 days (2 592 000 000 ms) before the reference time and the
   reference time, both ends included.
   */
  lemma WindowBounds(c: Commit, now: int)
    ensures GetLast30DaysCommits([c], now)
         == if c.occurredAt.Some? && now - 2_592_000_000 <= c.occurredAt.value <= now
            then [c] else []
  {
    assert [c][1..] == [];
  }
}
