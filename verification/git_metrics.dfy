/**
 * `GitAnalyzer.analyze_commits` of git_metrics.py: collect one record per
 * (local branch, commit) whose author the email list admits, give every
 * record the latest name of its email, then build the seven tables.
 *
 * The dates are UTC seconds; a day or month key is the Calendar number of the
 * date, which orders like the "YYYY-MM-DD" / "YYYY-MM" values of the source.
 */
module GitMetrics {
  import opened GitSource
  import opened Aggregation
  import opened Records
  import opened Identity
  import opened Calendar

  /** (day, email, branch, environment). */
  type DayKey = (int, string, string, string)
  /** (month, email, branch, environment). */
  type MonthKey = (int, string, string, string)
  /** (branch, environment, email). */
  type BranchKey = (string, string, string)
  /** (email, environment). */
  type AuthorEnvKey = (string, string)
  /** (day or month, environment). */
  type PeriodEnvKey = (int, string)

  function DailyKey(r: Record): DayKey { (Day(r.date), r.email, r.branch, r.env) }
  function MonthlyKey(r: Record): MonthKey { (Month(r.date), r.email, r.branch, r.env) }
  function DailyTotalKey(r: Record): PeriodEnvKey { (Day(r.date), r.env) }
  function MonthlyTotalKey(r: Record): PeriodEnvKey { (Month(r.date), r.env) }
  function BranchStatKey(r: Record): BranchKey { (r.branch, r.env, r.email) }
  function EnvKey(r: Record): string { r.env }
  function SummaryKey(r: Record): AuthorEnvKey { (r.email, r.env) }

  /** `sort_values(..., ascending=False)` on the period: the rank is the negated period. */
  function NewestFirst(k: PeriodEnvKey): int { -k.0 }

  /** The seven tables, in the order `analyze_commits` returns them. */
  datatype Tables = Tables(
    daily: seq<Row<DayKey>>,
    monthly: seq<Row<MonthKey>>,
    branches: seq<Row<BranchKey>>,
    summary: seq<Row<AuthorEnvKey>>,
    dailyTotals: seq<Row<PeriodEnvKey>>,
    monthlyTotals: seq<Row<PeriodEnvKey>>,
    environments: seq<Row<string>>)

  const NoTables: Tables := Tables([], [], [], [], [], [], [])

  /** The tables of records whose names are already resolved. */
  function TablesOf(rs: seq<Record>): Tables {
    Tables(
      Group(rs, DailyKey),
      Group(rs, MonthlyKey),
      Group(rs, BranchStatKey),
      Group(rs, SummaryKey),
      SortBy(Group(rs, DailyTotalKey), NewestFirst),
      SortBy(Group(rs, MonthlyTotalKey), NewestFirst),
      Group(rs, EnvKey))
  }

  /** What `analyze_commits` returns for the collected records. */
  function Analysis(rs: seq<Record>): Tables {
    if rs == [] then NoTables else TablesOf(Resolved(rs))
  }

  /**
   * `analyze_commits(author_emails)`: the collection loop, the name
   * resolution, the in-place rename and the tables. A missing and an empty
   * email list are both the empty sequence.
   */
  method AnalyzeCommits(refs: seq<Ref>, authorEmails: seq<string>) returns (t: Tables)
    ensures t == Analysis(Collected(LocalRefs(refs), FilterOfEmails(authorEmails)))
  {
    var records := CollectRecords(refs, FilterOfEmails(authorEmails));
    if records == [] {
      return NoTables;
    }
    var emailToName := MostRecentNames(records);
    EmailsResolved(records);
    var a := new Record[|records|](i requires 0 <= i < |records| => records[i]);
    assert a[..] == records;
    RenameInPlace(a, emailToName);
    t := TablesOf(a[..]);
  }

  /** The records `analyze_commits` groups are exactly the ones the filter admits on local branches. */
  lemma CollectedSpec(refs: seq<Ref>, authorEmails: seq<string>)
    ensures forall r :: r in Collected(LocalRefs(refs), FilterOfEmails(authorEmails)) ==>
      && (authorEmails == [] || r.email in authorEmails)
      && !IsRemote(r.branch)
      && r.totalLines == r.insertions + r.deletions
    ensures forall x, c :: x in refs && !IsRemote(x.name) && c in x.log && (authorEmails == [] || c.authorEmail in authorEmails) ==>
      RecordOf(c, x.name) in Collected(LocalRefs(refs), FilterOfEmails(authorEmails))
  {
    var f := FilterOfEmails(authorEmails);
    var local := LocalRefs(refs);
    CollectedKept(local, f);
    CollectedMembers(local, f);
    forall r | r in Collected(local, f) ensures !IsRemote(r.branch) {
      var x :| x in local && x.name == r.branch;
    }
  }

  /** With no collected records all seven tables are empty. */
  lemma AnalysisEmpty()
    ensures Analysis([]) == Tables([], [], [], [], [], [], [])
  {
  }

  /**
   * Every table is the grouping of the resolved records by its key: one row
   * per key, counting and summing exactly the records with that key, with
   * `total_branches` their distinct branches.
   */
  lemma AnalysisGroupings(rs: seq<Record>)
    requires rs != []
    ensures IsGrouping(Analysis(rs).daily, Resolved(rs), DailyKey)
    ensures IsGrouping(Analysis(rs).monthly, Resolved(rs), MonthlyKey)
    ensures IsGrouping(Analysis(rs).branches, Resolved(rs), BranchStatKey)
    ensures IsGrouping(Analysis(rs).summary, Resolved(rs), SummaryKey)
    ensures IsGrouping(Analysis(rs).dailyTotals, Resolved(rs), DailyTotalKey)
    ensures IsGrouping(Analysis(rs).monthlyTotals, Resolved(rs), MonthlyTotalKey)
    ensures IsGrouping(Analysis(rs).environments, Resolved(rs), EnvKey)
  {
    var out := Resolved(rs);
    GroupIsGrouping(out, DailyKey);
    GroupIsGrouping(out, MonthlyKey);
    GroupIsGrouping(out, BranchStatKey);
    GroupIsGrouping(out, SummaryKey);
    GroupIsGrouping(out, DailyTotalKey);
    SortedGrouping(Group(out, DailyTotalKey), out, DailyTotalKey, NewestFirst);
    GroupIsGrouping(out, MonthlyTotalKey);
    SortedGrouping(Group(out, MonthlyTotalKey), out, MonthlyTotalKey, NewestFirst);
    GroupIsGrouping(out, EnvKey);
  }

  /**
   * In every table the `total_commits` of the rows add up to the number of
   * records and each measure adds up to its sum over all records: a record
   * is counted in exactly one row of each table.
   */
  lemma AnalysisSums(rs: seq<Record>)
    requires rs != []
    ensures SumsTo(Analysis(rs).daily, rs)
    ensures SumsTo(Analysis(rs).monthly, rs)
    ensures SumsTo(Analysis(rs).branches, rs)
    ensures SumsTo(Analysis(rs).summary, rs)
    ensures SumsTo(Analysis(rs).dailyTotals, rs)
    ensures SumsTo(Analysis(rs).monthlyTotals, rs)
    ensures SumsTo(Analysis(rs).environments, rs)
  {
    var out := Resolved(rs);
    ResolvedSum(rs, DailyKey);
    ResolvedSum(rs, MonthlyKey);
    ResolvedSum(rs, BranchStatKey);
    ResolvedSum(rs, SummaryKey);
    ResolvedSum(rs, DailyTotalKey);
    SortBySum(Group(out, DailyTotalKey), NewestFirst);
    ResolvedSum(rs, MonthlyTotalKey);
    SortBySum(Group(out, MonthlyTotalKey), NewestFirst);
    ResolvedSum(rs, EnvKey);
  }

  /** `daily_totals` runs from the newest day to the oldest, `monthly_totals` from the newest month. */
  lemma AnalysisOrder(rs: seq<Record>)
    ensures forall i, j :: 0 <= i < j < |Analysis(rs).dailyTotals| ==>
      Analysis(rs).dailyTotals[i].key.0 >= Analysis(rs).dailyTotals[j].key.0
    ensures forall i, j :: 0 <= i < j < |Analysis(rs).monthlyTotals| ==>
      Analysis(rs).monthlyTotals[i].key.0 >= Analysis(rs).monthlyTotals[j].key.0
  {
    if rs != [] {
      var t := Analysis(rs);
      assert SortedBy(t.dailyTotals, NewestFirst);
      assert SortedBy(t.monthlyTotals, NewestFirst);
    }
  }

  function DayEmail(k: DayKey): string { k.1 }
  function MonthEmail(k: MonthKey): string { k.1 }
  function BranchEmail(k: BranchKey): string { k.2 }
  function SummaryEmail(k: AuthorEnvKey): string { k.0 }

  /**
   * In the four tables that carry an author, a row's name is the name of the
   * latest record of its email (the first such record on a tie).
   */
  lemma AnalysisNames(rs: seq<Record>)
    requires rs != []
    ensures NamedByLatest(Analysis(rs).daily, rs, DayEmail)
    ensures NamedByLatest(Analysis(rs).monthly, rs, MonthEmail)
    ensures NamedByLatest(Analysis(rs).branches, rs, BranchEmail)
    ensures NamedByLatest(Analysis(rs).summary, rs, SummaryEmail)
  {
    var t := Analysis(rs);
    var out := Resolved(rs);
    assert t.daily == Group(out, DailyKey) && t.monthly == Group(out, MonthlyKey);
    assert t.branches == Group(out, BranchStatKey) && t.summary == Group(out, SummaryKey);
    GroupedNamesResolved(rs, DailyKey, DayEmail);
    GroupedNamesResolved(rs, MonthlyKey, MonthEmail);
    GroupedNamesResolved(rs, BranchStatKey, BranchEmail);
    GroupedNamesResolved(rs, SummaryKey, SummaryEmail);
  }
}
