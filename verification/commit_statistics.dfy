/**
 * `CommitStatisticsQuery.execute` of get_commit_statistics_query.py: the
 * commits the repository returns, one row each, grouped per day, per month
 * and per branch. The keys are the ones `analyze_commits` uses for its
 * daily, monthly and branch tables; a date here is the commit's own
 * wall-clock reading.
 */
module CommitStatistics {
  import opened Wrappers
  import opened Entities
  import opened Aggregation
  import opened Records
  import opened GitMetrics
  import opened Repository
  import opened GitSource

  /** One row of `commits_data`. */
  function RecordOfCommit(c: Commit): Record {
    Record(WallClock(c.date), c.author.name, c.author.email, c.branch, c.environment,
           c.filesChanged, c.insertions, c.deletions, TotalLines(c), c.hash)
  }

  /** `commits_data`, in the order of the commits. */
  function CommitRecords(cs: seq<Commit>): seq<Record> {
    if cs == [] then [] else CommitRecords(cs[..|cs| - 1]) + [RecordOfCommit(cs[|cs| - 1])]
  }

  /** The three frames `execute` returns. */
  datatype Statistics = Statistics(
    daily: seq<Row<DayKey>>,
    monthly: seq<Row<MonthKey>>,
    branches: seq<Row<BranchKey>>)

  /** `execute` after `get_commits`: three empty frames for no commits, else the three groupings. */
  function StatisticsOf(commits: seq<Commit>): Statistics {
    if commits == [] then Statistics([], [], [])
    else
      var rs := CommitRecords(commits);
      Statistics(Group(rs, DailyKey), Group(rs, MonthlyKey), Group(rs, BranchStatKey))
  }

  /**
   * `execute()`: the repository's commits for the same authors and window,
   * grouped. The repository's author cache grows as `get_commits` makes it.
   */
  method Execute(repo: GitRepository, authors: Option<seq<Author>>, since: Option<int>, until: Option<int>)
    returns (s: Statistics)
    requires repo.Valid()
    modifies repo
    ensures repo.Valid()
    ensures var sel := Sightings(LocalRefs(repo.refs), FilterOf(authors, since, until));
      && repo.authorCache == Cached(old(repo.authorCache), Raws(sel))
      && exists commits :: Built(sel, commits, repo.authorCache) && s == StatisticsOf(commits)
  {
    var commits := repo.GetCommits(authors, since, until);
    s := StatisticsOf(commits);
  }

  lemma {:induction false} CommitRecordsSpec(cs: seq<Commit>)
    ensures |CommitRecords(cs)| == |cs|
    ensures forall i :: 0 <= i < |cs| ==> CommitRecords(cs)[i] == RecordOfCommit(cs[i])
  {
    if cs != [] {
      CommitRecordsSpec(cs[..|cs| - 1]);
    }
  }

  /**
   * Each frame is the grouping of the commits by its key: one row per key,
   * with the count and the sums of exactly the commits carrying that key.
   */
  lemma StatisticsGroupings(commits: seq<Commit>)
    ensures IsGrouping(StatisticsOf(commits).daily, CommitRecords(commits), DailyKey)
    ensures IsGrouping(StatisticsOf(commits).monthly, CommitRecords(commits), MonthlyKey)
    ensures IsGrouping(StatisticsOf(commits).branches, CommitRecords(commits), BranchStatKey)
  {
    var rs := CommitRecords(commits);
    GroupIsGrouping(rs, DailyKey);
    GroupIsGrouping(rs, MonthlyKey);
    GroupIsGrouping(rs, BranchStatKey);
  }

  /** In each frame `total_commits` adds up to the number of commits, and every measure to its total. */
  lemma StatisticsSums(commits: seq<Commit>)
    ensures SumRows(StatisticsOf(commits).daily).commits == |commits|
    ensures SumRows(StatisticsOf(commits).monthly).commits == |commits|
    ensures SumRows(StatisticsOf(commits).branches).commits == |commits|
    ensures SumRows(StatisticsOf(commits).daily) == Total(CommitRecords(commits))
    ensures SumRows(StatisticsOf(commits).branches) == Total(CommitRecords(commits))
    ensures SumRows(StatisticsOf(commits).monthly) == Total(CommitRecords(commits))
  {
    var rs := CommitRecords(commits);
    CommitRecordsSpec(commits);
    GroupSum(rs, DailyKey);
    GroupSum(rs, MonthlyKey);
    GroupSum(rs, BranchStatKey);
  }

  /** Every row of t is named after the cached Author of its email. */
  predicate NamedByCache<K>(t: seq<Row<K>>, cache: map<string, Author>, emailOf: K -> string) {
    forall i :: 0 <= i < |t| ==> emailOf(t[i].key) in cache && t[i].name == cache[emailOf(t[i].key)].name
  }

  /**
   * Every commit of one email carries the one cached Author of that email, so
   * `nome_autor: first` names every row of that email alike.
   */
  lemma RowsNamedByCache<K>(sel: seq<Sighting>, commits: seq<Commit>, cache: map<string, Author>,
                            keyOf: Record -> K, emailOf: K -> string)
    requires Built(sel, commits, cache)
    requires forall e :: e in cache ==> cache[e].email == e
    requires forall r :: emailOf(keyOf(r)) == r.email
    ensures NamedByCache(Group(CommitRecords(commits), keyOf), cache, emailOf)
  {
    var rs := CommitRecords(commits);
    var t := Group(rs, keyOf);
    CommitRecordsSpec(commits);
    GroupNames(rs, keyOf);
    forall i | 0 <= i < |t|
      ensures emailOf(t[i].key) in cache && t[i].name == cache[emailOf(t[i].key)].name
    {
      var k := t[i].key;
      WithKeyMembers(rs, keyOf, k);
      var r := WithKey(rs, keyOf, k)[0];
      assert r in rs;
      var j :| 0 <= j < |rs| && rs[j] == r;
      assert commits[j] == CreateCommit(sel[j].commit, cache[sel[j].commit.authorEmail], sel[j].branch);
    }
  }

  /** The three frames of built commits are named after the author cache. */
  lemma StatisticsNames(sel: seq<Sighting>, commits: seq<Commit>, cache: map<string, Author>)
    requires Built(sel, commits, cache)
    requires forall e :: e in cache ==> cache[e].email == e
    ensures NamedByCache(StatisticsOf(commits).daily, cache, DayEmail)
    ensures NamedByCache(StatisticsOf(commits).monthly, cache, MonthEmail)
    ensures NamedByCache(StatisticsOf(commits).branches, cache, BranchEmail)
  {
    if commits != [] {
      var s := StatisticsOf(commits);
      var rs := CommitRecords(commits);
      assert s.daily == Group(rs, DailyKey) && s.monthly == Group(rs, MonthlyKey);
      assert s.branches == Group(rs, BranchStatKey);
      RowsNamedByCache(sel, commits, cache, DailyKey, DayEmail);
      RowsNamedByCache(sel, commits, cache, MonthlyKey, MonthEmail);
      RowsNamedByCache(sel, commits, cache, BranchStatKey, BranchEmail);
    }
  }
}
