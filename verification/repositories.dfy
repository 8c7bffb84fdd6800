/**
 * `GitRepository` of src/infrastructure/repositories/git_repository.py: the
 * repository adapter that turns the library's commits into domain Commits,
 * with a per-email Author cache that lives as long as the object.
 *
 * The references, the commits of the whole history (`iter_commits()`) and the
 * head commit are the object's input data; the cache is its only state.
 */
module Repository {
  import opened Wrappers
  import opened Strings
  import opened GitSource
  import opened Environment
  import opened Entities

  // ---------------------------------------------------------------------
  // The Author cache.
  // ---------------------------------------------------------------------

  /** `_get_or_create_author` on a cache: an email already cached keeps its Author. */
  function CacheStep(m: map<string, Author>, c: RawCommit): map<string, Author> {
    if c.authorEmail in m then m else m[c.authorEmail := NewAuthor(c.authorName, c.authorEmail)]
  }

  /** The cache after `_get_or_create_author` has seen the commits cs in order. */
  function Cached(m: map<string, Author>, cs: seq<RawCommit>): map<string, Author> {
    if cs == [] then m else CacheStep(Cached(m, cs[..|cs| - 1]), cs[|cs| - 1])
  }

  function CommitEmails(cs: seq<RawCommit>): set<string> {
    set i | 0 <= i < |cs| :: cs[i].authorEmail
  }

  /**
   * The cache only grows: it gains the emails of the commits seen, and an
   * entry once stored is never replaced.
   */
  lemma {:induction false} CacheOnlyGrows(m: map<string, Author>, cs: seq<RawCommit>)
    ensures Cached(m, cs).Keys == m.Keys + CommitEmails(cs)
    ensures forall e :: e in m ==> Cached(m, cs)[e] == m[e]
  {
    if cs != [] {
      var p := cs[..|cs| - 1];
      CacheOnlyGrows(m, p);
      assert CommitEmails(cs) == CommitEmails(p) + {cs[|cs| - 1].authorEmail} by {
        assert forall i :: 0 <= i < |p| ==> cs[i] == p[i];
      }
    }
  }

  /**
   * An email that was not cached is stored with the name of the first commit
   * that carries it: the first-seen name wins.
   */
  lemma {:induction false} CacheFirstSeen(m: map<string, Author>, cs: seq<RawCommit>, i: int)
    requires 0 <= i < |cs| && cs[i].authorEmail !in m
    requires forall j :: 0 <= j < i ==> cs[j].authorEmail != cs[i].authorEmail
    ensures cs[i].authorEmail in Cached(m, cs)
    ensures Cached(m, cs)[cs[i].authorEmail] == NewAuthor(cs[i].authorName, cs[i].authorEmail)
  {
    var p := cs[..|cs| - 1];
    if i == |cs| - 1 {
      CacheOnlyGrows(m, p);
      assert cs[i].authorEmail !in CommitEmails(p);
    } else {
      CacheFirstSeen(m, p, i);
    }
  }

  // ---------------------------------------------------------------------
  // Which commits `get_commits` returns.
  // ---------------------------------------------------------------------

  /** The email set (None when no authors are given) and the optional UTC bounds. */
  datatype CommitFilter = CommitFilter(emails: Option<set<string>>, since: Option<int>, until: Option<int>)

  /** `{author.email for author in authors} if authors else None`. */
  function FilterOf(authors: Option<seq<Author>>, since: Option<int>, until: Option<int>): (f: CommitFilter)
    ensures f.emails.None? <==> authors.None? || authors.value == []
    ensures f.emails.Some? ==> forall e :: e in f.emails.value <==> exists a :: a in authors.value && a.email == e
  {
    if authors.Some? && authors.value != [] then
      CommitFilter(Some(set a | a in authors.value :: a.email), since, until)
    else CommitFilter(None, since, until)
  }

  /**
   * The author test and the date window: a commit is dropped only for an email
   * outside the set, a date before `since` or a date after `until`.
   */
  predicate Admits(f: CommitFilter, c: RawCommit) {
    && (f.emails.None? || c.authorEmail in f.emails.value)
    && (f.since.None? || c.timestamp >= f.since.value)
    && (f.until.None? || c.timestamp <= f.until.value)
  }

  /** A commit seen while traversing a branch. */
  datatype Sighting = Sighting(commit: RawCommit, branch: string)

  function LogSightings(log: seq<RawCommit>, branch: string, f: CommitFilter): seq<Sighting> {
    if log == [] then []
    else
      var c := log[|log| - 1];
      LogSightings(log[..|log| - 1], branch, f) + (if Admits(f, c) then [Sighting(c, branch)] else [])
  }

  /** The admitted commits, branch after branch, each branch in traversal order. */
  function Sightings(refs: seq<Ref>, f: CommitFilter): seq<Sighting> {
    if refs == [] then []
    else
      var x := refs[|refs| - 1];
      Sightings(refs[..|refs| - 1], f) + LogSightings(x.log, x.name, f)
  }

  /** The library commits of some sightings, in order. */
  function Raws(sel: seq<Sighting>): seq<RawCommit> {
    if sel == [] then [] else Raws(sel[..|sel|-1]) + [sel[|sel|-1].commit]
  }

  lemma {:induction false} LogSightingsSpec(log: seq<RawCommit>, branch: string, f: CommitFilter)
    ensures forall s :: s in LogSightings(log, branch, f) <==> s.branch == branch && s.commit in log && Admits(f, s.commit)
  {
    if log != [] {
      var p := log[..|log| - 1];
      LogSightingsSpec(p, branch, f);
      assert log == p + [log[|log| - 1]];
    }
  }

  /**
   * A commit seen on a branch is returned exactly when the branch is local and
   * the commit passes the author test and the date window; a failed
   * traversal still contributes the commits it yielded, and every other branch
   * contributes all of its own.
   */
  lemma {:induction false} SightingsSpec(refs: seq<Ref>, f: CommitFilter)
    ensures forall s :: s in Sightings(LocalRefs(refs), f) <==>
      Admits(f, s.commit) && exists x :: x in refs && !IsRemote(x.name) && x.name == s.branch && s.commit in x.log
  {
    SightingsMembers(LocalRefs(refs), f);
  }

  lemma {:induction false} SightingsMembers(refs: seq<Ref>, f: CommitFilter)
    ensures forall s :: s in Sightings(refs, f) <==>
      Admits(f, s.commit) && exists x :: x in refs && x.name == s.branch && s.commit in x.log
  {
    if refs != [] {
      var p := refs[..|refs| - 1];
      var x := refs[|refs| - 1];
      SightingsMembers(p, f);
      LogSightingsSpec(x.log, x.name, f);
      assert refs == p + [x];
      forall s: Sighting | Admits(f, s.commit) && (exists y :: y in refs && y.name == s.branch && s.commit in y.log)
        ensures s in Sightings(refs, f)
      {
        var y :| y in refs && y.name == s.branch && s.commit in y.log;
        if y != x {
          assert y in p;
        }
      }
    }
  }

  /** The result lists the branches' commits in branch order: each branch adds its block at the end. */
  lemma {:induction false} SightingsConcat(a: seq<Ref>, b: seq<Ref>, f: CommitFilter)
    ensures Sightings(a + b, f) == Sightings(a, f) + Sightings(b, f)
    decreases |b|
  {
    if b == [] {
      assert a + b == a;
    } else {
      var b' := b[..|b| - 1];
      assert (a + b)[..|a + b| - 1] == a + b';
      SightingsConcat(a, b', f);
    }
  }

  // ---------------------------------------------------------------------
  // Building a domain Commit.
  // ---------------------------------------------------------------------

  /** `_create_commit`: the domain Commit of a library commit. */
  function CreateCommit(c: RawCommit, author: Author, branch: string): Commit {
    Commit(ShortHash(c), author, Instant(c.timestamp, c.offset), branch, ToString(FromBranch(branch)),
           FilesChanged(c), Insertions(c), Deletions(c), Some(Strip(c.message)))
  }

  /**
   * The Commit carries the first 8 characters of the sha, the environment
   * rendered as "PRD" for main/master in any case and "HML" otherwise, the
   * message with its surrounding white space removed, and the commit's stats.
   */
  lemma CreateCommitSpec(c: RawCommit, author: Author, branch: string)
    ensures var d := CreateCommit(c, author, branch);
      && d.hash <= c.sha && |d.hash| <= 8 && (|c.sha| >= 8 ==> |d.hash| == 8)
      && (d.environment == "PRD" <==> Lower(branch) in ["main", "master"])
      && (d.environment == "HML" <==> !(Lower(branch) in ["main", "master"]))
      && d.message.Some? && (exists i :: ContainsAt(c.message, d.message.value, i))
      && (exists k :: StrippedAt(c.message, d.message.value, k))
      && (d.message.value == [] || (!IsSpace(d.message.value[0]) && !IsSpace(d.message.value[|d.message.value| - 1])))
      && TotalLines(d) == Insertions(c) + Deletions(c) && d.filesChanged == |c.files|
      && d.author == author && d.branch == branch && d.date == Instant(c.timestamp, c.offset)
  {
    ProductionIffMainOrMaster(branch);
    StripRemovesOnlySpace(c.message);
  }

  /** commits are the Commits of the sightings, each with its email's Author in the cache. */
  predicate Built(sel: seq<Sighting>, commits: seq<Commit>, cache: map<string, Author>) {
    && |commits| == |sel|
    && forall k :: 0 <= k < |sel| ==>
      sel[k].commit.authorEmail in cache &&
      commits[k] == CreateCommit(sel[k].commit, cache[sel[k].commit.authorEmail], sel[k].branch)
  }

  lemma BuiltExtend(sel: seq<Sighting>, commits: seq<Commit>, cache: map<string, Author>,
                    cache': map<string, Author>, s: Sighting)
    requires Built(sel, commits, cache)
    requires forall e :: e in cache ==> e in cache' && cache'[e] == cache[e]
    requires s.commit.authorEmail in cache'
    ensures Built(sel + [s], commits + [CreateCommit(s.commit, cache'[s.commit.authorEmail], s.branch)], cache')
  {
    var sel' := sel + [s];
    var commits' := commits + [CreateCommit(s.commit, cache'[s.commit.authorEmail], s.branch)];
    forall k | 0 <= k < |sel'|
      ensures sel'[k].commit.authorEmail in cache'
      ensures commits'[k] == CreateCommit(sel'[k].commit, cache'[sel'[k].commit.authorEmail], sel'[k].branch)
    {
      if k < |sel| {
        assert sel'[k] == sel[k] && commits'[k] == commits[k];
      }
    }
  }

  lemma CachedSnoc(m: map<string, Author>, sel: seq<Sighting>, s: Sighting)
    ensures Cached(m, Raws(sel + [s])) == CacheStep(Cached(m, Raws(sel)), s.commit)
  {
    assert (sel + [s])[..|sel|] == sel;
  }

  lemma SightingsStep(sel0: seq<Sighting>, log: seq<RawCommit>, j: int, branch: string, f: CommitFilter)
    requires 0 <= j < |log|
    ensures sel0 + LogSightings(log[..j + 1], branch, f) ==
      (sel0 + LogSightings(log[..j], branch, f)) + (if Admits(f, log[j]) then [Sighting(log[j], branch)] else [])
  {
    assert log[..j + 1][..j] == log[..j];
  }

  /** One more branch adds its admitted commits after those of the branches before it. */
  lemma BranchSightingsStep(refs: seq<Ref>, i: int, f: CommitFilter)
    requires 0 <= i < |refs|
    ensures Sightings(refs[..i + 1], f) == Sightings(refs[..i], f) + LogSightings(refs[i].log, refs[i].name, f)
  {
    assert refs[..i + 1][..i] == refs[..i];
  }

  // ---------------------------------------------------------------------
  // The emails of the whole history, in first-seen order.
  // ---------------------------------------------------------------------

  /** The distinct author emails of cs, in the order they first appear. */
  function FirstSeenEmails(cs: seq<RawCommit>): seq<string> {
    if cs == [] then []
    else
      var p := FirstSeenEmails(cs[..|cs| - 1]);
      var e := cs[|cs| - 1].authorEmail;
      if e in p then p else p + [e]
  }

  /** Every email of the history appears once in `FirstSeenEmails`, and nothing else does. */
  lemma {:induction false} FirstSeenEmailsSpec(cs: seq<RawCommit>)
    ensures forall e :: e in FirstSeenEmails(cs) <==> e in CommitEmails(cs)
    ensures forall i, j :: 0 <= i < j < |FirstSeenEmails(cs)| ==> FirstSeenEmails(cs)[i] != FirstSeenEmails(cs)[j]
  {
    if cs != [] {
      var p := cs[..|cs| - 1];
      FirstSeenEmailsSpec(p);
      assert CommitEmails(cs) == CommitEmails(p) + {cs[|cs| - 1].authorEmail} by {
        assert forall i :: 0 <= i < |p| ==> cs[i] == p[i];
      }
    }
  }

  // ---------------------------------------------------------------------
  // The repository object.
  // ---------------------------------------------------------------------

  class GitRepository {
    /** `repo.references`, each with the commits its traversal yields. */
    const refs: seq<Ref>
    /** `repo.iter_commits()`: the history reachable from HEAD. */
    const history: seq<RawCommit>
    /** `repo.head.commit`. */
    const head: RawCommit
    /** `_author_cache`. */
    var authorCache: map<string, Author>

    /** Every cached Author is stored under its own email. */
    predicate Valid()
      reads this
    {
      forall e :: e in authorCache ==> authorCache[e].email == e
    }

    constructor (refs: seq<Ref>, history: seq<RawCommit>, head: RawCommit)
      ensures Valid()
      ensures this.refs == refs && this.history == history && this.head == head
      ensures authorCache == map[]
    {
      this.refs := refs;
      this.history := history;
      this.head := head;
      authorCache := map[];
    }

    /** `get_branches`: the names of the references that are not remote-tracking, in order. */
    function GetBranches(): (names: seq<string>)
      ensures |names| == |LocalRefs(refs)| <= |refs|
      ensures forall i :: 0 <= i < |names| ==> names[i] == LocalRefs(refs)[i].name
      ensures forall n :: n in names <==> exists x :: x in refs && x.name == n && !IsRemote(n)
    {
      BranchNames(refs)
    }

    /** `_get_or_create_author`: the cached Author of the commit's email, created on first sight. */
    method GetOrCreateAuthor(c: RawCommit) returns (a: Author)
      requires Valid()
      modifies this
      ensures Valid()
      ensures a.email == c.authorEmail
      ensures authorCache == CacheStep(old(authorCache), c)
      ensures c.authorEmail in authorCache && a == authorCache[c.authorEmail]
      ensures c.authorEmail in old(authorCache) ==> a == old(authorCache)[c.authorEmail]
      ensures c.authorEmail !in old(authorCache) ==> a == NewAuthor(c.authorName, c.authorEmail)
    {
      if c.authorEmail !in authorCache {
        authorCache := authorCache[c.authorEmail := NewAuthor(c.authorName, c.authorEmail)];
      }
      a := authorCache[c.authorEmail];
    }

    /**
     * `get_commits(authors, since, until)`: a Commit per admitted commit of
     * each local branch, in branch order and then traversal order; each
     * carries the cached Author of its email.
     */
    method GetCommits(authors: Option<seq<Author>>, since: Option<int>, until: Option<int>)
      returns (commits: seq<Commit>)
      requires Valid()
      modifies this
      ensures Valid()
      ensures var sel := Sightings(LocalRefs(refs), FilterOf(authors, since, until));
        && authorCache == Cached(old(authorCache), Raws(sel))
        && Built(sel, commits, authorCache)
    {
      commits := CommitsPassing(FilterOf(authors, since, until));
    }

    /** The branch loop of `get_commits` for a computed filter. */
    method CommitsPassing(f: CommitFilter) returns (commits: seq<Commit>)
      requires Valid()
      modifies this
      ensures Valid()
      ensures var sel := Sightings(LocalRefs(refs), f);
        && authorCache == Cached(old(authorCache), Raws(sel))
        && Built(sel, commits, authorCache)
    {
      var branches := LocalRefs(refs);
      commits := [];
      var i := 0;
      while i < |branches|
        invariant 0 <= i <= |branches|
        invariant Valid()
        invariant authorCache == Cached(old(authorCache), Raws(Sightings(branches[..i], f)))
        invariant Built(Sightings(branches[..i], f), commits, authorCache)
      {
        BranchSightingsStep(branches, i, f);
        commits := AppendBranch(f, branches[i], commits, Sightings(branches[..i], f), old(authorCache));
        i := i + 1;
      }
      assert branches[..i] == branches;
    }

    /** The commit loop of one branch: append a Commit for every admitted commit. */
    method AppendBranch(f: CommitFilter, branch: Ref, commits0: seq<Commit>,
                        ghost sel0: seq<Sighting>, ghost m: map<string, Author>)
      returns (commits: seq<Commit>)
      requires Valid()
      requires authorCache == Cached(m, Raws(sel0)) && Built(sel0, commits0, authorCache)
      modifies this
      ensures Valid()
      ensures authorCache == Cached(m, Raws(sel0 + LogSightings(branch.log, branch.name, f)))
      ensures Built(sel0 + LogSightings(branch.log, branch.name, f), commits, authorCache)
    {
      commits := commits0;
      var j := 0;
      assert sel0 + LogSightings(branch.log[..0], branch.name, f) == sel0;
      while j < |branch.log|
        invariant 0 <= j <= |branch.log|
        invariant Valid()
        invariant authorCache == Cached(m, Raws(sel0 + LogSightings(branch.log[..j], branch.name, f)))
        invariant Built(sel0 + LogSightings(branch.log[..j], branch.name, f), commits, authorCache)
      {
        ghost var seen := sel0 + LogSightings(branch.log[..j], branch.name, f);
        assert branch.log[..j + 1][..j] == branch.log[..j];
        SightingsStep(sel0, branch.log, j, branch.name, f);
        commits := AppendIfAdmitted(f, branch.log[j], branch.name, commits, seen, m);
        j := j + 1;
      }
      assert branch.log[..j] == branch.log;
    }

    /** One iteration of the commit loop. */
    method AppendIfAdmitted(f: CommitFilter, c: RawCommit, branchName: string, commits0: seq<Commit>,
                            ghost sel0: seq<Sighting>, ghost m: map<string, Author>)
      returns (commits: seq<Commit>)
      requires Valid()
      requires authorCache == Cached(m, Raws(sel0)) && Built(sel0, commits0, authorCache)
      modifies this
      ensures Valid()
      ensures var sel := sel0 + (if Admits(f, c) then [Sighting(c, branchName)] else []);
        authorCache == Cached(m, Raws(sel)) && Built(sel, commits, authorCache)
    {
      commits := commits0;
      if Admits(f, c) {
        ghost var before := authorCache;
        var author := GetOrCreateAuthor(c);
        BuiltExtend(sel0, commits0, before, authorCache, Sighting(c, branchName));
        CachedSnoc(m, sel0, Sighting(c, branchName));
        commits := commits0 + [CreateCommit(c, author, branchName)];
      } else {
        assert sel0 + [] == sel0;
      }
    }

    /**
     * `get_authors`: one Author per distinct email of the history, in
     * first-seen order, each the cached one.
     */
    method GetAuthors() returns (authors: seq<Author>)
      requires Valid()
      modifies this
      ensures Valid()
      ensures authorCache == Cached(old(authorCache), history)
      ensures |authors| == |FirstSeenEmails(history)|
      ensures forall i :: 0 <= i < |authors| ==>
        && authors[i].email == FirstSeenEmails(history)[i]
        && FirstSeenEmails(history)[i] in authorCache && authors[i] == authorCache[FirstSeenEmails(history)[i]]
    {
      var found: map<string, Author> := map[];
      var order: seq<string> := [];
      var k := 0;
      while k < |history|
        invariant 0 <= k <= |history|
        invariant Valid()
        invariant order == FirstSeenEmails(history[..k])
        invariant found.Keys == set e | e in order
        invariant authorCache == Cached(old(authorCache), history[..k])
        invariant forall e :: e in found ==> e in authorCache && found[e] == authorCache[e]
      {
        var c := history[k];
        assert history[..k + 1][..k] == history[..k];
        if c.authorEmail !in found {
          var a := GetOrCreateAuthor(c);
          found := found[c.authorEmail := a];
          order := order + [c.authorEmail];
        } else {
          assert c.authorEmail in authorCache;
        }
        k := k + 1;
      }
      assert history[..k] == history;
      authors := seq(|order|, i requires 0 <= i < |order| => found[order[i]]);
    }

    /** `get_recent_author`: the cached Author of the head commit's email. */
    method GetRecentAuthor() returns (a: Author)
      requires Valid()
      modifies this
      ensures Valid()
      ensures authorCache == CacheStep(old(authorCache), head)
      ensures a.email == head.authorEmail && a == authorCache[head.authorEmail]
    {
      a := GetOrCreateAuthor(head);
    }
  }
}
