/**
 * `RepositoryMetricsQuery.execute` of repository_metrics.py: the records of
 * the commits of the selected authors on the local branches, with names
 * resolved, summarised in four tables.
 *
 * Unlike `analyze_commits`, a commit is kept only when some selected author
 * has its email, so an empty selection keeps nothing.
 */
module RepositoryMetrics {
  import opened GitSource
  import opened Aggregation
  import opened Records
  import opened Identity
  import opened Calendar
  import opened Entities

  /** (name, email, environment): the author summary groups by the resolved name too. */
  type NamedAuthorKey = (string, string, string)

  function AuthorEnvKey(r: Record): NamedAuthorKey { (r.name, r.email, r.env) }
  function EnvKey(r: Record): string { r.env }
  function DayEnvKey(r: Record): (int, string) { (Day(r.date), r.env) }
  function MonthEnvKey(r: Record): (int, string) { (Month(r.date), r.env) }
  function DayOf(r: Record): int { Day(r.date) }
  function MonthOf(r: Record): int { Month(r.date) }

  /** The second `groupby('data')` / `groupby('mes')`: drop the environment from the key. */
  function Period(k: (int, string)): int { k.0 }

  function Newest(period: int): int { -period }

  /** The four lists of the returned dictionary. */
  datatype Summary = Summary(
    byAuthor: seq<Row<NamedAuthorKey>>,
    byEnvironment: seq<Row<string>>,
    dailyTotals: seq<Row<int>>,
    monthlyTotals: seq<Row<int>>)

  const NoSummary: Summary := Summary([], [], [], [])

  /** The emails of the selected authors. */
  function AuthorEmails(authors: seq<Author>): (emails: seq<string>)
    ensures |emails| == |authors|
    ensures forall i :: 0 <= i < |authors| ==> emails[i] == authors[i].email
  {
    seq(|authors|, i requires 0 <= i < |authors| => authors[i].email)
  }

  /** `any(author.email == commit.author.email for author in authors)`. */
  function AuthorFilter(authors: seq<Author>): (f: EmailFilter)
    ensures forall e :: Keeps(f, e) <==> exists i :: 0 <= i < |authors| && authors[i].email == e
  {
    FilterOfAuthorEmails(AuthorEmails(authors))
  }

  /** The four tables of records whose names are already resolved. */
  function SummaryOf(rs: seq<Record>): Summary {
    Summary(
      Group(rs, AuthorEnvKey),
      Group(rs, EnvKey),
      SortBy(Regroup(Group(rs, DayEnvKey), Period), Newest),
      SortBy(Regroup(Group(rs, MonthEnvKey), Period), Newest))
  }

  /** What `execute` returns for the collected records. */
  function Metrics(rs: seq<Record>): Summary {
    if rs == [] then NoSummary else SummaryOf(Resolved(rs))
  }

  /** `execute(authors)`: collection, name resolution, in-place rename and the four tables. */
  method Execute(refs: seq<Ref>, authors: seq<Author>) returns (s: Summary)
    ensures s == Metrics(Collected(LocalRefs(refs), AuthorFilter(authors)))
  {
    var records := CollectRecords(refs, AuthorFilter(authors));
    if records == [] {
      return NoSummary;
    }
    var emailToName := MostRecentNames(records);
    EmailsResolved(records);
    var a := new Record[|records|](i requires 0 <= i < |records| => records[i]);
    assert a[..] == records;
    RenameInPlace(a, emailToName);
    s := SummaryOf(a[..]);
  }

  /** An empty author selection yields the four empty lists. */
  lemma NoAuthorsNoMetrics(refs: seq<Ref>)
    ensures Metrics(Collected(LocalRefs(refs), AuthorFilter([]))) == Summary([], [], [], [])
  {
    NoAuthorsNoRecords(LocalRefs(refs));
  }

  /**
   * Every kept record belongs to a selected author, and every commit of a
   * selected author on a local branch gives its record.
   */
  lemma CollectedBySelected(refs: seq<Ref>, authors: seq<Author>)
    ensures forall r :: r in Collected(LocalRefs(refs), AuthorFilter(authors)) ==>
      exists i :: 0 <= i < |authors| && authors[i].email == r.email
    ensures forall x, c, i :: x in refs && !IsRemote(x.name) && c in x.log && 0 <= i < |authors| && authors[i].email == c.authorEmail ==>
      RecordOf(c, x.name) in Collected(LocalRefs(refs), AuthorFilter(authors))
  {
    CollectedKept(LocalRefs(refs), AuthorFilter(authors));
    CollectedMembers(LocalRefs(refs), AuthorFilter(authors));
  }

  /**
   * `resumo_autor_ambiente` and `resumo_ambiente` group the resolved records;
   * `totais_diarios` and `totais_mensais`, built by grouping per (period,
   * environment) and then per period, are the groupings of the records by
   * period alone.
   */
  lemma MetricsGroupings(rs: seq<Record>)
    requires rs != []
    ensures IsGrouping(Metrics(rs).byAuthor, Resolved(rs), AuthorEnvKey)
    ensures IsGrouping(Metrics(rs).byEnvironment, Resolved(rs), EnvKey)
    ensures IsGrouping(Metrics(rs).dailyTotals, Resolved(rs), DayOf)
    ensures IsGrouping(Metrics(rs).monthlyTotals, Resolved(rs), MonthOf)
  {
    var out := Resolved(rs);
    GroupIsGrouping(out, AuthorEnvKey);
    GroupIsGrouping(out, EnvKey);
    RegroupSpec(out, DayEnvKey, Period, DayOf);
    SortedGrouping(Regroup(Group(out, DayEnvKey), Period), out, DayOf, Newest);
    RegroupSpec(out, MonthEnvKey, Period, MonthOf);
    SortedGrouping(Regroup(Group(out, MonthEnvKey), Period), out, MonthOf, Newest);
  }

  /** In each of the four lists the `commits` add up to the number of records, and every measure to its total. */
  lemma MetricsSums(rs: seq<Record>)
    requires rs != []
    ensures SumsTo(Metrics(rs).byAuthor, rs)
    ensures SumsTo(Metrics(rs).byEnvironment, rs)
    ensures SumsTo(Metrics(rs).dailyTotals, rs)
    ensures SumsTo(Metrics(rs).monthlyTotals, rs)
  {
    var out := Resolved(rs);
    ResolvedSum(rs, AuthorEnvKey);
    ResolvedSum(rs, EnvKey);
    ResolvedSum(rs, DayEnvKey);
    RegroupSum(Group(out, DayEnvKey), Period);
    SortBySum(Regroup(Group(out, DayEnvKey), Period), Newest);
    ResolvedSum(rs, MonthEnvKey);
    RegroupSum(Group(out, MonthEnvKey), Period);
    SortBySum(Regroup(Group(out, MonthEnvKey), Period), Newest);
  }

  /** `totais_diarios` and `totais_mensais` run from the newest period to the oldest. */
  lemma MetricsOrder(rs: seq<Record>)
    ensures forall i, j :: 0 <= i < j < |Metrics(rs).dailyTotals| ==>
      Metrics(rs).dailyTotals[i].key >= Metrics(rs).dailyTotals[j].key
    ensures forall i, j :: 0 <= i < j < |Metrics(rs).monthlyTotals| ==>
      Metrics(rs).monthlyTotals[i].key >= Metrics(rs).monthlyTotals[j].key
  {
    if rs != [] {
      var m := Metrics(rs);
      assert SortedBy(m.dailyTotals, Newest);
      assert SortedBy(m.monthlyTotals, Newest);
    }
  }

  /**
   * Grouping by the resolved name as well as the email splits nothing: no two
   * rows of `resumo_autor_ambiente` share an (email, environment) pair.
   */
  lemma OneRowPerAuthorEnvironment(rs: seq<Record>)
    requires rs != []
    ensures forall i, j ::
      (&& 0 <= i < |Metrics(rs).byAuthor| && 0 <= j < |Metrics(rs).byAuthor|
       && Metrics(rs).byAuthor[i].key.1 == Metrics(rs).byAuthor[j].key.1
       && Metrics(rs).byAuthor[i].key.2 == Metrics(rs).byAuthor[j].key.2)
      ==> i == j
  {
    var out := Resolved(rs);
    var t := Group(out, AuthorEnvKey);
    GroupSpec(out, AuthorEnvKey);
    ResolvedSpec(rs);
    ResolvedKeepsEmails(rs);
    forall i, j | 0 <= i < |t| && 0 <= j < |t| && t[i].key.1 == t[j].key.1 && t[i].key.2 == t[j].key.2
      ensures i == j
    {
      assert t[i].key in KeySet(out, AuthorEnvKey) && t[j].key in KeySet(out, AuthorEnvKey);
      var a :| 0 <= a < |out| && AuthorEnvKey(out[a]) == t[i].key;
      var b :| 0 <= b < |out| && AuthorEnvKey(out[b]) == t[j].key;
      assert t[i].key == t[j].key;
    }
  }
}
