/**
 * The per-commit records that git_metrics.py and repository_metrics.py build
 * before grouping, the loop that collects them, and grouping a sequence of
 * records by a key.
 *
 * A record is one (commit, branch) observation: a commit reachable from two
 * branches yields two records, and every count below counts records.
 */
module Records {
  import opened Strings
  import opened GitSource
  import opened Environment
  import opened Aggregation

  /** One row of `commits_data`; `date` is the commit time in UTC seconds. */
  datatype Record = Record(
    date: int,
    name: string,
    email: string,
    branch: string,
    env: string,
    files: nat,
    insertions: nat,
    deletions: nat,
    totalLines: nat,
    hash: string)

  /** The record built for a commit seen on a branch. */
  function RecordOf(c: RawCommit, branch: string): (r: Record)
    ensures r.totalLines == r.insertions + r.deletions
    ensures r.insertions == Insertions(c) && r.deletions == Deletions(c) && r.files == FilesChanged(c)
    ensures r.hash <= c.sha && |r.hash| <= 8
    ensures r.env == "PRD" <==> Lower(branch) in ["main", "master"]
    ensures r.branch == branch && r.email == c.authorEmail && r.name == c.authorName && r.date == c.timestamp
  {
    var env := ClassifyBranch(branch);
    Record(c.timestamp, c.authorName, c.authorEmail, branch, env,
           FilesChanged(c), Insertions(c), Deletions(c), Insertions(c) + Deletions(c), ShortHash(c))
  }

  /** Which author emails a collection keeps. */
  datatype EmailFilter = KeepAll | KeepListed(emails: seq<string>)

  predicate Keeps(f: EmailFilter, email: string) {
    match f
    case KeepAll => true
    case KeepListed(emails) => email in emails
  }

  /**
   * git_metrics.py: `if author_emails and email not in author_emails: continue`.
   * A missing or empty list filters nothing.
   */
  function FilterOfEmails(authorEmails: seq<string>): (f: EmailFilter)
    ensures forall e :: Keeps(f, e) <==> authorEmails == [] || e in authorEmails
  {
    if authorEmails == [] then KeepAll else KeepListed(authorEmails)
  }

  /**
   * repository_metrics.py: a commit is kept when `any` selected author has its
   * email, so an empty selection keeps nothing.
   */
  function FilterOfAuthorEmails(selected: seq<string>): (f: EmailFilter)
    ensures forall e :: Keeps(f, e) <==> exists i :: 0 <= i < |selected| && selected[i] == e
  {
    KeepListed(selected)
  }

  /** The records of one branch's commits that the filter keeps, in traversal order. */
  function LogRecords(log: seq<RawCommit>, branch: string, f: EmailFilter): seq<Record> {
    if log == [] then []
    else
      var c := log[|log| - 1];
      LogRecords(log[..|log| - 1], branch, f) + (if Keeps(f, c.authorEmail) then [RecordOf(c, branch)] else [])
  }

  /** The records of the given references, branch after branch. */
  function Collected(refs: seq<Ref>, f: EmailFilter): seq<Record> {
    if refs == [] then []
    else
      var x := refs[|refs| - 1];
      Collected(refs[..|refs| - 1], f) + LogRecords(x.log, x.name, f)
  }

  /**
   * The collection loop of `analyze_commits` and `execute`: for each local
   * branch, for each commit its traversal yields, append a record when the
   * filter keeps the author.
   */
  method CollectRecords(refs: seq<Ref>, f: EmailFilter) returns (records: seq<Record>)
    ensures records == Collected(LocalRefs(refs), f)
  {
    var branches := LocalRefs(refs);
    records := [];
    var i := 0;
    while i < |branches|
      invariant 0 <= i <= |branches|
      invariant records == Collected(branches[..i], f)
    {
      records := AppendBranch(records, branches[i], f);
      CollectedStep(branches, f, i);
      i := i + 1;
    }
    assert branches[..i] == branches;
  }

  /** The inner loop of the collection: one branch's kept commits, appended in traversal order. */
  method AppendBranch(records: seq<Record>, branch: Ref, f: EmailFilter) returns (out: seq<Record>)
    ensures out == records + LogRecords(branch.log, branch.name, f)
  {
    out := records;
    var j := 0;
    while j < |branch.log|
      invariant 0 <= j <= |branch.log|
      invariant out == records + LogRecords(branch.log[..j], branch.name, f)
    {
      var c := branch.log[j];
      LogRecordsStep(branch.log, branch.name, f, j);
      if Keeps(f, c.authorEmail) {
        out := out + [RecordOf(c, branch.name)];
      }
      j := j + 1;
    }
    assert branch.log[..j] == branch.log;
  }

  lemma LogRecordsStep(log: seq<RawCommit>, branch: string, f: EmailFilter, j: int)
    requires 0 <= j < |log|
    ensures LogRecords(log[..j + 1], branch, f)
         == LogRecords(log[..j], branch, f) + (if Keeps(f, log[j].authorEmail) then [RecordOf(log[j], branch)] else [])
  {
    assert log[..j + 1][..j] == log[..j];
  }

  lemma CollectedStep(refs: seq<Ref>, f: EmailFilter, i: int)
    requires 0 <= i < |refs|
    ensures Collected(refs[..i + 1], f) == Collected(refs[..i], f) + LogRecords(refs[i].log, refs[i].name, f)
  {
    assert refs[..i + 1][..i] == refs[..i];
  }

  /** Every collected record comes from a kept commit of a listed branch. */
  lemma {:induction false} LogRecordsKept(log: seq<RawCommit>, branch: string, f: EmailFilter)
    ensures forall r :: r in LogRecords(log, branch, f) ==>
      Keeps(f, r.email) && r.branch == branch && r.totalLines == r.insertions + r.deletions
    ensures |LogRecords(log, branch, f)| <= |log|
  {
    if log != [] {
      LogRecordsKept(log[..|log| - 1], branch, f);
    }
  }

  /** A branch yields the record of a commit exactly when the commit is in its traversal and the filter keeps its author. */
  lemma {:induction false} LogRecordsMembers(log: seq<RawCommit>, branch: string, f: EmailFilter)
    ensures forall c :: c in log && Keeps(f, c.authorEmail) ==> RecordOf(c, branch) in LogRecords(log, branch, f)
    ensures forall r :: r in LogRecords(log, branch, f) ==>
      exists c :: c in log && Keeps(f, c.authorEmail) && r == RecordOf(c, branch)
  {
    if log != [] {
      var init := log[..|log| - 1];
      var last := log[|log| - 1];
      LogRecordsMembers(init, branch, f);
      assert log == init + [last];
      forall c | c in log && Keeps(f, c.authorEmail)
        ensures RecordOf(c, branch) in LogRecords(log, branch, f)
      {
        if c != last {
          assert c in init;
        }
      }
      forall r | r in LogRecords(log, branch, f)
        ensures exists c :: c in log && Keeps(f, c.authorEmail) && r == RecordOf(c, branch)
      {
        if r in LogRecords(init, branch, f) {
          var c :| c in init && Keeps(f, c.authorEmail) && r == RecordOf(c, branch);
          assert c in log;
        } else {
          assert last in log;
        }
      }
    }
  }

  /**
   * The collection holds the record of a commit on a reference exactly when
   * the commit is in the reference's traversal and the filter keeps its author.
   */
  lemma {:induction false} CollectedMembers(refs: seq<Ref>, f: EmailFilter)
    ensures forall x, c :: x in refs && c in x.log && Keeps(f, c.authorEmail) ==> RecordOf(c, x.name) in Collected(refs, f)
    ensures forall r :: r in Collected(refs, f) ==>
      exists x, c :: x in refs && c in x.log && Keeps(f, c.authorEmail) && r == RecordOf(c, x.name)
  {
    if refs != [] {
      var p := refs[..|refs| - 1];
      var y := refs[|refs| - 1];
      CollectedMembers(p, f);
      LogRecordsMembers(y.log, y.name, f);
      assert refs == p + [y];
      forall x, c | x in refs && c in x.log && Keeps(f, c.authorEmail)
        ensures RecordOf(c, x.name) in Collected(refs, f)
      {
        if x != y {
          assert x in p;
        }
      }
      forall r | r in Collected(refs, f)
        ensures exists x, c :: x in refs && c in x.log && Keeps(f, c.authorEmail) && r == RecordOf(c, x.name)
      {
        if r in Collected(p, f) {
          var x, c :| x in p && c in x.log && Keeps(f, c.authorEmail) && r == RecordOf(c, x.name);
          assert x in refs;
        } else {
          var c :| c in y.log && Keeps(f, c.authorEmail) && r == RecordOf(c, y.name);
          assert y in refs;
        }
      }
    }
  }

  /** With no filter, every yielded commit gives a record. */
  lemma {:induction false} KeepAllKeepsEvery(log: seq<RawCommit>, branch: string)
    ensures |LogRecords(log, branch, KeepAll)| == |log|
  {
    if log != [] {
      KeepAllKeepsEvery(log[..|log| - 1], branch);
    }
  }

  lemma {:induction false} NothingListedNoRecords(log: seq<RawCommit>, branch: string)
    ensures LogRecords(log, branch, KeepListed([])) == []
  {
    if log != [] {
      NothingListedNoRecords(log[..|log| - 1], branch);
    }
  }

  /** An empty selection of authors yields no records at all. */
  lemma {:induction false} NoAuthorsNoRecords(refs: seq<Ref>)
    ensures Collected(refs, FilterOfAuthorEmails([])) == []
  {
    if refs != [] {
      var x := refs[|refs| - 1];
      NoAuthorsNoRecords(refs[..|refs| - 1]);
      NothingListedNoRecords(x.log, x.name);
    }
  }

  /** Branches are processed independently: a failed branch never hides the records of others. */
  lemma {:induction false} CollectedConcat(a: seq<Ref>, b: seq<Ref>, f: EmailFilter)
    ensures Collected(a + b, f) == Collected(a, f) + Collected(b, f)
    decreases |b|
  {
    if b == [] {
      assert a + b == a;
    } else {
      var b' := b[..|b| - 1];
      var last := b[|b| - 1];
      assert (a + b)[..|a + b| - 1] == a + b';
      assert (a + b)[|a + b| - 1] == last;
      CollectedConcat(a, b', f);
      assert Collected(a + b, f) == Collected(a, f) + Collected(b', f) + LogRecords(last.log, last.name, f);
    }
  }

  /**
   * A branch whose traversal raised contributes what it yielded, and the next
   * branches still count. Nothing depends on `x.failed`: a raising traversal
   * is handled exactly like one that completes.
   */
  lemma FailedBranchSkipped(before: seq<Ref>, x: Ref, after: seq<Ref>, f: EmailFilter)
    ensures Collected(before + [x] + after, f)
         == Collected(before, f) + LogRecords(x.log, x.name, f) + Collected(after, f)
  {
    CollectedConcat(before + [x], after, f);
    CollectedConcat(before, [x], f);
    assert [x][..0] == [];
  }

  // ---------------------------------------------------------------------
  // Grouping records.
  // ---------------------------------------------------------------------

  /** The measures one record contributes: one commit and its line counts. */
  function Measure(r: Record): (m: Measures)
    ensures m.commits == 1
  {
    Measures(1, r.files, r.insertions, r.deletions, r.totalLines)
  }

  /** The records as items of the grouping engine, keyed by `keyOf`. */
  function Items<K>(rs: seq<Record>, keyOf: Record -> K): (xs: seq<Item<K>>)
    ensures |xs| == |rs|
  {
    if rs == [] then []
    else
      var r := rs[|rs| - 1];
      Items(rs[..|rs| - 1], keyOf) + [Item(keyOf(r), r.name, Measure(r), {r.branch})]
  }

  /** `df.groupby(key).agg(...)`: one row per key, in first-seen order. */
  function Group<K(==)>(rs: seq<Record>, keyOf: Record -> K): seq<Row<K>> {
    Fold(Items(rs, keyOf))
  }

  /** The records with key k. */
  function WithKey<K(==)>(rs: seq<Record>, keyOf: Record -> K, k: K): seq<Record> {
    if rs == [] then []
    else
      var r := rs[|rs| - 1];
      WithKey(rs[..|rs| - 1], keyOf, k) + (if keyOf(r) == k then [r] else [])
  }

  /** The summed measures of some records. */
  function Total(rs: seq<Record>): Measures {
    if rs == [] then Zero else Plus(Total(rs[..|rs| - 1]), Measure(rs[|rs| - 1]))
  }

  /** The distinct branches of some records. */
  function BranchSet(rs: seq<Record>): set<string> {
    set i | 0 <= i < |rs| :: rs[i].branch
  }

  /** The keys the records carry. */
  function KeySet<K>(rs: seq<Record>, keyOf: Record -> K): set<K> {
    set i | 0 <= i < |rs| :: keyOf(rs[i])
  }

  /** The commit count of a total is the number of records summed. */
  lemma {:induction false} TotalCounts(rs: seq<Record>)
    ensures Total(rs).commits == |rs|
  {
    if rs != [] {
      TotalCounts(rs[..|rs| - 1]);
    }
  }

  lemma {:induction false} ItemsSum<K>(rs: seq<Record>, keyOf: Record -> K, k: K)
    ensures SumKey(Items(rs, keyOf), k) == Total(WithKey(rs, keyOf, k))
  {
    if rs != [] {
      var p := rs[..|rs| - 1];
      var r := rs[|rs| - 1];
      var xs := Items(rs, keyOf);
      ItemsSum(p, keyOf, k);
      assert xs[..|rs| - 1] == Items(p, keyOf);
      assert Last(xs) == Item(keyOf(r), r.name, Measure(r), {r.branch});
      if keyOf(r) == k {
        var w := WithKey(rs, keyOf, k);
        assert w[..|w| - 1] == WithKey(p, keyOf, k);
      } else {
        assert WithKey(rs, keyOf, k) == WithKey(p, keyOf, k);
        PlusZero(SumKey(Items(p, keyOf), k));
      }
    }
  }

  lemma BranchSetSnoc(rs: seq<Record>, r: Record)
    ensures BranchSet(rs + [r]) == BranchSet(rs) + {r.branch}
  {
    var u := rs + [r];
    assert u[|rs|].branch == r.branch;
    forall b | b in BranchSet(rs) ensures b in BranchSet(u) {
      var i :| 0 <= i < |rs| && rs[i].branch == b;
      assert u[i].branch == b;
    }
  }

  lemma {:induction false} ItemsBranches<K>(rs: seq<Record>, keyOf: Record -> K, k: K)
    ensures BranchesKey(Items(rs, keyOf), k) == BranchSet(WithKey(rs, keyOf, k))
  {
    if rs != [] {
      var p := rs[..|rs| - 1];
      var r := rs[|rs| - 1];
      var xs := Items(rs, keyOf);
      ItemsBranches(p, keyOf, k);
      assert xs[..|rs| - 1] == Items(p, keyOf);
      assert Last(xs) == Item(keyOf(r), r.name, Measure(r), {r.branch});
      if keyOf(r) == k {
        BranchSetSnoc(WithKey(p, keyOf, k), r);
      } else {
        assert WithKey(rs, keyOf, k) == WithKey(p, keyOf, k);
      }
    }
  }

  lemma KeySetSnoc<K>(rs: seq<Record>, keyOf: Record -> K, r: Record)
    ensures KeySet(rs + [r], keyOf) == KeySet(rs, keyOf) + {keyOf(r)}
  {
    var u := rs + [r];
    assert keyOf(u[|rs|]) == keyOf(r);
    forall k | k in KeySet(rs, keyOf) ensures k in KeySet(u, keyOf) {
      var i :| 0 <= i < |rs| && keyOf(rs[i]) == k;
      assert keyOf(u[i]) == k;
    }
    forall k | k in KeySet(u, keyOf) ensures k in KeySet(rs, keyOf) + {keyOf(r)} {
      var i :| 0 <= i < |u| && keyOf(u[i]) == k;
      if i < |rs| {
        assert keyOf(rs[i]) == k;
      }
    }
  }

  lemma {:induction false} ItemsKeys<K>(rs: seq<Record>, keyOf: Record -> K)
    ensures ItemKeys(Items(rs, keyOf)) == KeySet(rs, keyOf)
  {
    if rs != [] {
      var p := rs[..|rs| - 1];
      var r := rs[|rs| - 1];
      var xs := Items(rs, keyOf);
      ItemsKeys(p, keyOf);
      assert rs == p + [r];
      KeySetSnoc(p, keyOf, r);
      assert xs[..|xs| - 1] == Items(p, keyOf);
      assert Last(xs).key == keyOf(r);
    }
  }

  /**
   * A grouped table: its keys are distinct and are exactly the keys of the
   * records; each row counts the records with its key (`count`), sums their
   * measures (`sum`) and holds their distinct branches (`nunique`).
   */
  lemma GroupSpec<K>(rs: seq<Record>, keyOf: Record -> K)
    ensures DistinctKeys(Group(rs, keyOf))
    ensures RowKeys(Group(rs, keyOf)) == KeySet(rs, keyOf)
    ensures forall i :: 0 <= i < |Group(rs, keyOf)| ==>
      var row := Group(rs, keyOf)[i];
      && row.total == Total(WithKey(rs, keyOf, row.key))
      && row.total.commits == |WithKey(rs, keyOf, row.key)|
      && row.branches == BranchSet(WithKey(rs, keyOf, row.key))
  {
    var xs := Items(rs, keyOf);
    FoldKeys(xs);
    ItemsKeys(rs, keyOf);
    FoldTotals(xs);
    FoldBranches(xs);
    forall i | 0 <= i < |Group(rs, keyOf)|
      ensures Group(rs, keyOf)[i].total == Total(WithKey(rs, keyOf, Group(rs, keyOf)[i].key))
      ensures Group(rs, keyOf)[i].total.commits == |WithKey(rs, keyOf, Group(rs, keyOf)[i].key)|
      ensures Group(rs, keyOf)[i].branches == BranchSet(WithKey(rs, keyOf, Group(rs, keyOf)[i].key))
    {
      var k := Group(rs, keyOf)[i].key;
      ItemsSum(rs, keyOf, k);
      ItemsBranches(rs, keyOf, k);
      TotalCounts(WithKey(rs, keyOf, k));
    }
  }

  /**
   * t is the table of rs grouped by keyOf, in some row order: one row per key
   * the records carry, holding the total and the distinct branches of the
   * records with that key.
   */
  predicate IsGrouping<K(==)>(t: seq<Row<K>>, rs: seq<Record>, keyOf: Record -> K) {
    && DistinctKeys(t)
    && RowKeys(t) == KeySet(rs, keyOf)
    && (forall i :: 0 <= i < |t| ==> t[i].total == Total(WithKey(rs, keyOf, t[i].key)))
    && (forall i :: 0 <= i < |t| ==> t[i].branches == BranchSet(WithKey(rs, keyOf, t[i].key)))
  }

  lemma GroupIsGrouping<K>(rs: seq<Record>, keyOf: Record -> K)
    ensures IsGrouping(Group(rs, keyOf), rs, keyOf)
  {
    GroupSpec(rs, keyOf);
  }

  /** Sorting a grouped table leaves a grouping of the same records with the same sum. */
  lemma SortedGrouping<K>(t: seq<Row<K>>, rs: seq<Record>, keyOf: Record -> K, rank: K -> int)
    requires IsGrouping(t, rs, keyOf)
    ensures IsGrouping(SortBy(t, rank), rs, keyOf)
    ensures SumRows(SortBy(t, rank)) == SumRows(t)
  {
    var r := SortBy(t, rank);
    SortKeepsRows(t, rank);
    SortBySum(t, rank);
    SameRowsGrouping(t, r, rs, keyOf);
  }

  lemma SortKeepsRows<K>(t: seq<Row<K>>, rank: K -> int)
    requires DistinctKeys(t)
    ensures DistinctKeys(SortBy(t, rank)) && RowKeys(SortBy(t, rank)) == RowKeys(t)
    ensures forall row :: row in SortBy(t, rank) ==> row in t
  {
    var r := SortBy(t, rank);
    PermutationKeepsRows(t, r);
    forall row | row in r ensures row in t {
      assert row in multiset(r);
    }
  }

  lemma SameRowsGrouping<K>(t: seq<Row<K>>, r: seq<Row<K>>, rs: seq<Record>, keyOf: Record -> K)
    requires IsGrouping(t, rs, keyOf)
    requires forall row :: row in r ==> row in t
    ensures forall i :: 0 <= i < |r| ==> r[i].total == Total(WithKey(rs, keyOf, r[i].key))
    ensures forall i :: 0 <= i < |r| ==> r[i].branches == BranchSet(WithKey(rs, keyOf, r[i].key))
  {
    forall i | 0 <= i < |r|
      ensures r[i].total == Total(WithKey(rs, keyOf, r[i].key))
      ensures r[i].branches == BranchSet(WithKey(rs, keyOf, r[i].key))
    {
      assert r[i] in t;
      var j :| 0 <= j < |t| && t[j] == r[i];
    }
  }

  lemma {:induction false} ItemsSumAll<K>(rs: seq<Record>, keyOf: Record -> K)
    ensures SumAll(Items(rs, keyOf)) == Total(rs)
  {
    if rs != [] {
      ItemsSumAll(rs[..|rs| - 1], keyOf);
      assert Items(rs, keyOf)[..|rs| - 1] == Items(rs[..|rs| - 1], keyOf);
    }
  }

  /** The rows of a grouped table together count every record once and hold all of the measures. */
  lemma GroupSum<K>(rs: seq<Record>, keyOf: Record -> K)
    ensures SumRows(Group(rs, keyOf)) == Total(rs)
    ensures SumRows(Group(rs, keyOf)).commits == |rs|
  {
    FoldSum(Items(rs, keyOf));
    ItemsSumAll(rs, keyOf);
    TotalCounts(rs);
  }

  /** The records with key k are records of rs, and carry key k. */
  lemma {:induction false} WithKeyMembers<K>(rs: seq<Record>, keyOf: Record -> K, k: K)
    ensures forall r :: r in WithKey(rs, keyOf, k) ==> r in rs && keyOf(r) == k
  {
    if rs != [] {
      WithKeyMembers(rs[..|rs| - 1], keyOf, k);
      assert rs == rs[..|rs| - 1] + [rs[|rs| - 1]];
    }
  }

  /** Some record has key k exactly when the records with key k are not none. */
  lemma {:induction false} WithKeyEmpty<K>(rs: seq<Record>, keyOf: Record -> K, k: K)
    ensures WithKey(rs, keyOf, k) == [] <==> k !in KeySet(rs, keyOf)
  {
    if rs != [] {
      var p := rs[..|rs| - 1];
      WithKeyEmpty(p, keyOf, k);
      assert KeySet(rs, keyOf) == KeySet(p, keyOf) + {keyOf(rs[|rs| - 1])} by {
        assert forall i :: 0 <= i < |p| ==> rs[i] == p[i];
      }
    }
  }

  lemma {:induction false} ItemsFirstName<K>(rs: seq<Record>, keyOf: Record -> K, k: K)
    requires WithKey(rs, keyOf, k) != []
    ensures FirstName(Items(rs, keyOf), k) == WithKey(rs, keyOf, k)[0].name
  {
    var p := rs[..|rs| - 1];
    var xs := Items(rs, keyOf);
    assert xs[..|xs| - 1] == Items(p, keyOf);
    ItemsKeys(p, keyOf);
    WithKeyEmpty(p, keyOf, k);
    if k in KeySet(p, keyOf) {
      ItemsFirstName(p, keyOf, k);
    }
  }

  /** `nome_autor: first`: a row's name is the name of the first record with its key. */
  lemma GroupNames<K>(rs: seq<Record>, keyOf: Record -> K)
    ensures forall i :: 0 <= i < |Group(rs, keyOf)| ==>
      WithKey(rs, keyOf, Group(rs, keyOf)[i].key) != [] &&
      Group(rs, keyOf)[i].name == WithKey(rs, keyOf, Group(rs, keyOf)[i].key)[0].name
  {
    GroupSpec(rs, keyOf);
    FoldNames(Items(rs, keyOf));
    forall i | 0 <= i < |Group(rs, keyOf)|
      ensures WithKey(rs, keyOf, Group(rs, keyOf)[i].key) != []
      ensures Group(rs, keyOf)[i].name == WithKey(rs, keyOf, Group(rs, keyOf)[i].key)[0].name
    {
      var k := Group(rs, keyOf)[i].key;
      assert k in RowKeys(Group(rs, keyOf));
      WithKeyEmpty(rs, keyOf, k);
      ItemsFirstName(rs, keyOf, k);
    }
  }

  /** Every collected record is one the filter keeps, seen on one of the given references. */
  lemma {:induction false} CollectedKept(refs: seq<Ref>, f: EmailFilter)
    ensures forall r :: r in Collected(refs, f) ==>
      Keeps(f, r.email) && r.totalLines == r.insertions + r.deletions && exists x :: x in refs && x.name == r.branch
  {
    if refs != [] {
      var p := refs[..|refs| - 1];
      var x := refs[|refs| - 1];
      CollectedKept(p, f);
      LogRecordsKept(x.log, x.name, f);
      forall r | r in Collected(refs, f)
        ensures Keeps(f, r.email) && r.totalLines == r.insertions + r.deletions
        ensures exists y :: y in refs && y.name == r.branch
      {
        if r in Collected(p, f) {
          var y :| y in p && y.name == r.branch;
          assert y in refs;
        } else {
          assert x in refs;
        }
      }
    }
  }

  // Grouping a grouped table again by a coarser key.
  // ---------------------------------------------------------------------

  lemma {:induction false} RelabelItems<K, J>(rs: seq<Record>, keyOf: Record -> K, proj: K -> J, coarse: Record -> J)
    requires forall r :: coarse(r) == proj(keyOf(r))
    ensures Relabel(Items(rs, keyOf), proj) == Items(rs, coarse)
  {
    if rs != [] {
      var xs := Items(rs, keyOf);
      assert xs[..|xs| - 1] == Items(rs[..|rs| - 1], keyOf);
      RelabelItems(rs[..|rs| - 1], keyOf, proj, coarse);
    }
  }

  /**
   * Regrouping a grouped table by a projection of its key gives the rows that
   * grouping the records by the coarser key directly gives: the same keys, each
   * with the total and the branches of the records with that coarser key.
   */
  lemma RegroupSpec<K, J>(rs: seq<Record>, keyOf: Record -> K, proj: K -> J, coarse: Record -> J)
    requires forall r :: coarse(r) == proj(keyOf(r))
    ensures DistinctKeys(Regroup(Group(rs, keyOf), proj))
    ensures RowKeys(Regroup(Group(rs, keyOf), proj)) == KeySet(rs, coarse)
    ensures forall i :: 0 <= i < |Regroup(Group(rs, keyOf), proj)| ==>
      var row := Regroup(Group(rs, keyOf), proj)[i];
      && row.total == Total(WithKey(rs, coarse, row.key))
      && row.branches == BranchSet(WithKey(rs, coarse, row.key))
  {
    var xs := Items(rs, keyOf);
    var ys := AsItems(Fold(xs), proj);
    var t := Regroup(Group(rs, keyOf), proj);
    RelabelItems(rs, keyOf, proj, coarse);
    FoldKeys(ys);
    FoldRelabelKeys(xs, proj);
    ItemsKeys(rs, coarse);
    FoldTotals(ys);
    FoldBranches(ys);
    forall i | 0 <= i < |t|
      ensures t[i].total == Total(WithKey(rs, coarse, t[i].key))
      ensures t[i].branches == BranchSet(WithKey(rs, coarse, t[i].key))
    {
      var j := t[i].key;
      FoldRelabelSum(xs, proj, j);
      FoldRelabelBranches(xs, proj, j);
      ItemsSum(rs, coarse, j);
      ItemsBranches(rs, coarse, j);
    }
  }
}
