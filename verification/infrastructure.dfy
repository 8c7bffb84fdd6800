/**
 * The older repository object of src/infrastructure/git_repository.py: the
 * author list cached on first use, the search for an author's name and
 * email variations, and the per-author commit, line and file-type counts.
 *
 * Author pairs are (name, email); an empty string stands for both the empty
 * and the missing value, which the source treats alike (both are falsy).
 */
module Infrastructure {
  import opened Wrappers
  import opened Strings
  import opened GitSource
  import opened Entities

  /** A (name, email) pair as `get_all_authors` lists it. */
  type NameEmail = (string, string)

  function AuthorPair(c: RawCommit): NameEmail {
    (c.authorName, c.authorEmail)
  }

  /** The (name, email) pairs of a history. */
  function PairSet(cs: seq<RawCommit>): set<NameEmail> {
    set i | 0 <= i < |cs| :: AuthorPair(cs[i])
  }

  predicate Distinct<T(==)>(xs: seq<T>) {
    forall i, j :: 0 <= i < j < |xs| ==> xs[i] != xs[j]
  }

  /** ps lists every author pair of the history once, in some order (`list(set)`). */
  predicate ListsAuthors(ps: seq<NameEmail>, cs: seq<RawCommit>) {
    && Distinct(ps)
    && (forall p :: p in ps ==> p in PairSet(cs))
    && (forall p :: p in PairSet(cs) ==> p in ps)
  }

  lemma PairSetSnoc(cs: seq<RawCommit>, c: RawCommit)
    ensures PairSet(cs + [c]) == PairSet(cs) + {AuthorPair(c)}
  {
    var cs' := cs + [c];
    assert forall i :: 0 <= i < |cs| ==> cs'[i] == cs[i];
    assert cs'[|cs|] == c;
  }

  // ---------------------------------------------------------------------
  // Author variations.
  // ---------------------------------------------------------------------

  /** The search value is non-empty and occurs, lower-cased, in the lower-cased field. */
  predicate Matches(search: string, field: string) {
    search != [] && Contains(Lower(field), Lower(search))
  }

  /** A pair is a variation of the author when its email or its name matches. */
  predicate IsVariation(author: Author, p: NameEmail) {
    Matches(author.email, p.1) || Matches(author.name, p.0)
  }

  /** The variations among ps, in the order of ps. */
  function Variations(ps: seq<NameEmail>, author: Author): seq<NameEmail> {
    if ps == [] then []
    else
      var p := ps[|ps| - 1];
      Variations(ps[..|ps| - 1], author) + (if IsVariation(author, p) then [p] else [])
  }

  /** A pair is reported exactly when it is listed and its email or its name matches. */
  lemma {:induction false} VariationsMembers(ps: seq<NameEmail>, author: Author)
    ensures forall p :: p in Variations(ps, author) <==> p in ps && IsVariation(author, p)
  {
    if ps != [] {
      VariationsMembers(ps[..|ps| - 1], author);
      assert ps == ps[..|ps| - 1] + [ps[|ps| - 1]];
    }
  }

  /** x stands before y in ps. */
  predicate Before(ps: seq<NameEmail>, x: NameEmail, y: NameEmail) {
    exists a, b :: 0 <= a < b < |ps| && ps[a] == x && ps[b] == y
  }

  /**
   * The variations keep the order of the list they come from: any two of
   * them stand in the list in the same order.
   */
  lemma {:induction false} VariationsOrdered(ps: seq<NameEmail>, author: Author)
    ensures forall i, j :: 0 <= i < j < |Variations(ps, author)| ==>
      Before(ps, Variations(ps, author)[i], Variations(ps, author)[j])
  {
    if ps != [] {
      var init := ps[..|ps| - 1];
      var v := Variations(ps, author);
      var w := Variations(init, author);
      VariationsOrdered(init, author);
      VariationsMembers(init, author);
      forall i, j | 0 <= i < j < |v|
        ensures Before(ps, v[i], v[j])
      {
        assert v[i] == w[i];
        if j < |w| {
          assert v[j] == w[j];
          assert Before(init, w[i], w[j]);
          var a, b :| 0 <= a < b < |init| && init[a] == w[i] && init[b] == w[j];
          assert ps[a] == v[i] && ps[b] == v[j];
        } else {
          assert w[i] in init;
          var a :| 0 <= a < |init| && init[a] == w[i];
          assert ps[a] == v[i] && ps[|ps| - 1] == v[j];
        }
      }
    }
  }

  /** A list without repeats yields variations without repeats. */
  lemma {:induction false} VariationsDistinct(ps: seq<NameEmail>, author: Author)
    requires Distinct(ps)
    ensures Distinct(Variations(ps, author))
  {
    if ps != [] {
      var init := ps[..|ps| - 1];
      VariationsDistinct(init, author);
      VariationsMembers(init, author);
      assert ps[|ps| - 1] !in init;
    }
  }

  /** An author whose name and email are both empty matches nothing. */
  lemma {:induction false} EmptyAuthorMatchesNothing(ps: seq<NameEmail>, author: Author)
    requires author.name == [] && author.email == []
    ensures Variations(ps, author) == []
  {
    if ps != [] {
      EmptyAuthorMatchesNothing(ps[..|ps| - 1], author);
    }
  }

  /** An exact match, ignoring case, is a match. */
  lemma ExactMatch(search: string, field: string)
    requires search != [] && Lower(search) == Lower(field)
    ensures Matches(search, field)
  {
    assert ContainsAt(Lower(field), Lower(search), 0);
  }

  // ---------------------------------------------------------------------
  // Commits of an author.
  // ---------------------------------------------------------------------

  /** The commits of one traversal whose author has the email. */
  function LogByAuthor(log: seq<RawCommit>, email: string): seq<RawCommit> {
    if log == [] then []
    else
      var c := log[|log| - 1];
      LogByAuthor(log[..|log| - 1], email) + (if c.authorEmail == email then [c] else [])
  }

  /** The commits with the email, branch after branch. */
  function ByAuthor(refs: seq<Ref>, email: string): seq<RawCommit> {
    if refs == [] then []
    else ByAuthor(refs[..|refs| - 1], email) + LogByAuthor(refs[|refs| - 1].log, email)
  }

  /** The positions of a traversal that hold a commit with the email. */
  function Positions(log: seq<RawCommit>, email: string): set<int> {
    set i | 0 <= i < |log| && log[i].authorEmail == email
  }

  /** The number of (local branch, position) pairs holding a commit with the email. */
  function PairCount(refs: seq<Ref>, email: string): nat {
    if refs == [] then 0
    else
      var x := refs[|refs| - 1];
      PairCount(refs[..|refs| - 1], email) + (if IsRemote(x.name) then 0 else |Positions(x.log, email)|)
  }

  lemma {:induction false} LogByAuthorCount(log: seq<RawCommit>, email: string)
    ensures |LogByAuthor(log, email)| == |Positions(log, email)|
  {
    if log != [] {
      var n := |log| - 1;
      var init := log[..n];
      LogByAuthorCount(init, email);
      var before := Positions(init, email);
      assert Positions(log, email) == before + (if log[n].authorEmail == email then {n} else {});
      assert n !in before;
    }
  }

  lemma {:induction false} LogByAuthorMembers(log: seq<RawCommit>, email: string)
    ensures forall c :: c in LogByAuthor(log, email) <==> c in log && c.authorEmail == email
  {
    if log != [] {
      LogByAuthorMembers(log[..|log| - 1], email);
      assert log == log[..|log| - 1] + [log[|log| - 1]];
    }
  }

  /**
   * `get_commit_count_by_author` counts (branch, commit) pairs: a commit
   * reachable from two local branches is counted twice.
   */
  lemma {:induction false} ByAuthorCount(refs: seq<Ref>, email: string)
    ensures |ByAuthor(LocalRefs(refs), email)| == PairCount(refs, email)
  {
    if refs != [] {
      var init := refs[..|refs| - 1];
      var x := refs[|refs| - 1];
      ByAuthorCount(init, email);
      assert refs == init + [x];
      LocalRefsConcat(init, [x]);
      assert [x][..0] == [];
      var tail := if IsRemote(x.name) then [] else [x];
      assert LocalRefs([x]) == tail;
      ByAuthorConcat(LocalRefs(init), tail, email);
      if !IsRemote(x.name) {
        assert ByAuthor([x], email) == LogByAuthor(x.log, email);
        LogByAuthorCount(x.log, email);
      }
    }
  }

  lemma {:induction false} ByAuthorConcat(a: seq<Ref>, b: seq<Ref>, email: string)
    ensures ByAuthor(a + b, email) == ByAuthor(a, email) + ByAuthor(b, email)
    decreases |b|
  {
    if b == [] {
      assert a + b == a;
    } else {
      var b' := b[..|b| - 1];
      var last := LogByAuthor(b[|b| - 1].log, email);
      assert (a + b)[..|a + b| - 1] == a + b';
      assert (a + b)[|a + b| - 1] == b[|b| - 1];
      ByAuthorConcat(a, b', email);
      assert ByAuthor(a + b, email) == ByAuthor(a, email) + ByAuthor(b', email) + last;
    }
  }

  /** The commits returned are exactly those with the email on some local branch. */
  lemma {:induction false} ByAuthorMembers(refs: seq<Ref>, email: string)
    ensures forall c :: c in ByAuthor(refs, email) <==>
      c.authorEmail == email && exists x :: x in refs && c in x.log
  {
    if refs != [] {
      var init := refs[..|refs| - 1];
      var x := refs[|refs| - 1];
      ByAuthorMembers(init, email);
      LogByAuthorMembers(x.log, email);
      assert refs == init + [x];
      forall c: RawCommit | c.authorEmail == email && (exists y :: y in refs && c in y.log)
        ensures c in ByAuthor(refs, email)
      {
        var y :| y in refs && c in y.log;
        if y != x {
          assert y in init;
        }
      }
    }
  }

  // ---------------------------------------------------------------------
  // Lines and file types.
  // ---------------------------------------------------------------------

  /** The summed per-file line counts of some commits. */
  function LinesOf(cs: seq<RawCommit>): nat {
    if cs == [] then 0 else LinesOf(cs[..|cs| - 1]) + SumFileLines(cs[|cs| - 1].files)
  }

  /** The inserted plus deleted lines of some commits. */
  function ChurnOf(cs: seq<RawCommit>): nat {
    if cs == [] then 0 else ChurnOf(cs[..|cs| - 1]) + Insertions(cs[|cs| - 1]) + Deletions(cs[|cs| - 1])
  }

  /** The lines `get_lines_changed_by_author` adds up are the author's inserted and deleted lines. */
  lemma {:induction false} LinesAreChurn(cs: seq<RawCommit>)
    ensures LinesOf(cs) == ChurnOf(cs)
  {
    if cs != [] {
      LinesAreChurn(cs[..|cs| - 1]);
      FileLinesTotal(cs[|cs| - 1].files);
    }
  }

  /** The text after the last '.' of a path (empty when it ends in '.'). */
  function AfterLastDot(s: string): string {
    if s == [] || s[|s| - 1] == '.' then []
    else AfterLastDot(s[..|s| - 1]) + [s[|s| - 1]]
  }

  /** `file.split('.')[-1] if '.' in file else 'other'`. */
  function Extension(path: string): string {
    if '.' in path then AfterLastDot(path) else "other"
  }

  lemma {:induction false} AfterLastDotSpec(s: string)
    requires '.' in s
    ensures exists i :: 0 <= i < |s| && s[i] == '.' && AfterLastDot(s) == s[i + 1..]
    ensures '.' !in AfterLastDot(s)
  {
    var n := |s| - 1;
    if s[n] == '.' {
      assert s[n + 1..] == [];
    } else {
      var init := s[..n];
      assert '.' in init by {
        var k :| 0 <= k < |s| && s[k] == '.';
        assert init[k] == '.';
      }
      AfterLastDotSpec(init);
      var i :| 0 <= i < |init| && init[i] == '.' && AfterLastDot(init) == init[i + 1..];
      assert s[i + 1..] == init[i + 1..] + [s[n]];
    }
  }

  /**
   * A file's key is the text after its last '.', which holds no '.' itself,
   * or "other" for a name without a '.'.
   */
  lemma ExtensionSpec(path: string)
    ensures '.' in path ==> exists i :: 0 <= i < |path| && path[i] == '.' && Extension(path) == path[i + 1..]
    ensures '.' in path ==> '.' !in Extension(path)
    ensures '.' !in path ==> Extension(path) == "other"
  {
    if '.' in path {
      AfterLastDotSpec(path);
    }
  }

  /** The paths of a commit's files. */
  function FilePaths(fs: seq<FileStat>): seq<string> {
    if fs == [] then [] else FilePaths(fs[..|fs| - 1]) + [fs[|fs| - 1].path]
  }

  /** The file paths of some commits, commit by commit. */
  function Paths(cs: seq<RawCommit>): seq<string> {
    if cs == [] then [] else Paths(cs[..|cs| - 1]) + FilePaths(cs[|cs| - 1].files)
  }

  lemma TallyStep(before: seq<string>, fs: seq<FileStat>, j: int)
    requires 0 <= j < |fs|
    ensures TallyOf(before + FilePaths(fs[..j + 1])) == Tally(TallyOf(before + FilePaths(fs[..j])), Extension(fs[j].path))
  {
    assert fs[..j + 1][..j] == fs[..j];
    var ps := before + FilePaths(fs[..j]);
    assert before + FilePaths(fs[..j + 1]) == ps + [fs[j].path];
    assert (ps + [fs[j].path])[..|ps|] == ps;
  }

  lemma PathsStep(cs: seq<RawCommit>, i: int)
    requires 0 <= i < |cs|
    ensures Paths(cs[..i + 1]) == Paths(cs[..i]) + FilePaths(cs[i].files)
  {
    assert cs[..i + 1][..i] == cs[..i];
  }

  /** The number of (commit, file) pairs of some commits. */
  function FileCount(cs: seq<RawCommit>): nat {
    if cs == [] then 0 else FileCount(cs[..|cs| - 1]) + |cs[|cs| - 1].files|
  }

  /** `file_types[ext] = file_types.get(ext, 0) + 1`. */
  function Tally(m: map<string, nat>, key: string): map<string, nat> {
    m[key := (if key in m then m[key] else 0) + 1]
  }

  /** The extension counts of some paths. */
  function TallyOf(paths: seq<string>): map<string, nat> {
    if paths == [] then map[]
    else Tally(TallyOf(paths[..|paths| - 1]), Extension(paths[|paths| - 1]))
  }

  /** The paths with a given key. */
  function WithExtension(paths: seq<string>, key: string): set<int> {
    set i | 0 <= i < |paths| && Extension(paths[i]) == key
  }

  /** The sum of a map's values. */
  ghost function SumValues(m: map<string, nat>): nat
    decreases |m.Keys|
  {
    if m == map[] then 0
    else
      var k :| k in m;
      m[k] + SumValues(m - {k})
  }

  lemma {:induction false} SumValuesRemove(m: map<string, nat>, k: string)
    requires k in m
    ensures SumValues(m) == m[k] + SumValues(m - {k})
    decreases |m.Keys|
  {
    var j :| j in m && SumValues(m) == m[j] + SumValues(m - {j});
    if j != k {
      var mj := m - {j};
      var mk := m - {k};
      assert |mj.Keys| < |m.Keys| by { assert mj.Keys == m.Keys - {j}; }
      assert |mk.Keys| < |m.Keys| by { assert mk.Keys == m.Keys - {k}; }
      SumValuesRemove(mj, k);
      SumValuesRemove(mk, j);
      assert mj - {k} == mk - {j};
    }
  }

  lemma TallySum(m: map<string, nat>, key: string)
    ensures SumValues(Tally(m, key)) == SumValues(m) + 1
  {
    var t := Tally(m, key);
    SumValuesRemove(t, key);
    assert t - {key} == m - {key};
    if key in m {
      SumValuesRemove(m, key);
    } else {
      assert m - {key} == m;
    }
  }

  /** The counts add up to the number of paths. */
  lemma {:induction false} TallyOfSum(paths: seq<string>)
    ensures SumValues(TallyOf(paths)) == |paths|
  {
    if paths != [] {
      TallyOfSum(paths[..|paths| - 1]);
      TallySum(TallyOf(paths[..|paths| - 1]), Extension(paths[|paths| - 1]));
    }
  }

  /** Each key counts exactly the paths with that key, and only keys of some path appear. */
  lemma {:induction false} TallyOfCounts(paths: seq<string>)
    ensures forall k :: k in TallyOf(paths) <==> WithExtension(paths, k) != {}
    ensures forall k :: k in TallyOf(paths) ==> TallyOf(paths)[k] == |WithExtension(paths, k)|
  {
    if paths != [] {
      var n := |paths| - 1;
      var init := paths[..n];
      TallyOfCounts(init);
      forall k
        ensures WithExtension(paths, k) == WithExtension(init, k) + (if Extension(paths[n]) == k then {n} else {})
      {
      }
      forall k ensures n !in WithExtension(init, k) {
      }
    }
  }

  lemma {:induction false} FilePathsCount(fs: seq<FileStat>)
    ensures |FilePaths(fs)| == |fs|
  {
    if fs != [] {
      FilePathsCount(fs[..|fs| - 1]);
    }
  }

  lemma {:induction false} PathsCount(cs: seq<RawCommit>)
    ensures |Paths(cs)| == FileCount(cs)
  {
    if cs != [] {
      PathsCount(cs[..|cs| - 1]);
      FilePathsCount(cs[|cs| - 1].files);
    }
  }

  /** The counts of `get_file_types_by_author` add up to the number of (commit, file) pairs. */
  lemma FileTypesSum(cs: seq<RawCommit>)
    ensures SumValues(TallyOf(Paths(cs))) == FileCount(cs)
  {
    TallyOfSum(Paths(cs));
    PathsCount(cs);
  }

  // ---------------------------------------------------------------------
  // The repository object.
  // ---------------------------------------------------------------------

  class GitRepository {
    /** `repo.references`, each with the commits its traversal yields. */
    const refs: seq<Ref>
    /** `repo.iter_commits()`: the history reachable from HEAD. */
    const history: seq<RawCommit>
    /** `_authors_cache`: None until `get_all_authors` first runs. */
    var authorsCache: Option<seq<NameEmail>>

    /** A filled cache lists the authors of the history. */
    predicate Valid()
      reads this
    {
      authorsCache.Some? ==> ListsAuthors(authorsCache.value, history)
    }

    constructor (refs: seq<Ref>, history: seq<RawCommit>)
      ensures Valid()
      ensures this.refs == refs && this.history == history && authorsCache == None
    {
      this.refs := refs;
      this.history := history;
      authorsCache := None;
    }

    /**
     * `get_all_authors`: the distinct (name, email) pairs of the history,
     * computed on the first call; every later call returns the same list.
     */
    method GetAllAuthors() returns (authors: seq<NameEmail>)
      requires Valid()
      modifies this
      ensures Valid()
      ensures authorsCache == Some(authors)
      ensures old(authorsCache).Some? ==> authors == old(authorsCache).value
      ensures ListsAuthors(authors, history)
    {
      if authorsCache.None? {
        var found := AuthorSet();
        var listed := ListOf(found);
        authorsCache := Some(listed);
      }
      authors := authorsCache.value;
    }

    /** The set the first call of `get_all_authors` fills. */
    method AuthorSet() returns (found: set<NameEmail>)
      ensures found == PairSet(history)
    {
      found := {};
      var k := 0;
      while k < |history|
        invariant 0 <= k <= |history|
        invariant found == PairSet(history[..k])
      {
        PairSetSnoc(history[..k], history[k]);
        assert history[..k + 1] == history[..k] + [history[k]];
        found := found + {AuthorPair(history[k])};
        k := k + 1;
      }
      assert history[..k] == history;
    }

    /** `list(authors)`: the members of the set, each once, in an unspecified order. */
    static method ListOf(s: set<NameEmail>) returns (xs: seq<NameEmail>)
      ensures Distinct(xs)
      ensures forall p :: p in xs <==> p in s
    {
      xs := [];
      var rest := s;
      while rest != {}
        invariant rest <= s
        invariant Distinct(xs)
        invariant forall p :: p in xs <==> p in s && p !in rest
        decreases |rest|
      {
        var p :| p in rest;
        xs := xs + [p];
        rest := rest - {p};
      }
    }

    /**
     * `find_author_variations`: the listed pairs whose email or name
     * contains the author's, ignoring case, tested as the four cases of
     * the source (exact email, exact name, partial email, partial name).
     */
    method FindAuthorVariations(author: Author) returns (variations: seq<NameEmail>)
      requires Valid()
      modifies this
      ensures Valid()
      ensures authorsCache.Some? && variations == Variations(authorsCache.value, author)
      ensures old(authorsCache).Some? ==> authorsCache == old(authorsCache)
      ensures Distinct(variations)
      ensures forall p :: p in variations <==> p in PairSet(history) && IsVariation(author, p)
    {
      var all := GetAllAuthors();
      variations := [];
      var searchEmail := Lower(author.email);
      var searchName := Lower(author.name);
      var k := 0;
      while k < |all|
        modifies {}
        invariant 0 <= k <= |all|
        invariant variations == Variations(all[..k], author)
      {
        var (name, email) := all[k];
        var nameLower := Lower(name);
        var emailLower := Lower(email);
        assert all[..k + 1][..k] == all[..k];
        if searchEmail != [] && searchEmail == emailLower {
          ExactMatch(author.email, email);
          variations := variations + [(name, email)];
        } else if searchName != [] && searchName == nameLower {
          ExactMatch(author.name, name);
          variations := variations + [(name, email)];
        } else if searchEmail != [] && Contains(emailLower, searchEmail) {
          variations := variations + [(name, email)];
        } else if searchName != [] && Contains(nameLower, searchName) {
          variations := variations + [(name, email)];
        }
        k := k + 1;
      }
      assert all[..k] == all;
      VariationsMembers(all, author);
      VariationsDistinct(all, author);
    }

    /** `get_all_branches`: the names of the references that do not start with "origin/". */
    function GetAllBranches(): (names: seq<string>)
      ensures |names| == |LocalRefs(refs)|
      ensures forall i :: 0 <= i < |names| ==> names[i] == LocalRefs(refs)[i].name && !StartsWith(names[i], "origin/")
    {
      var local := LocalRefs(refs);
      assert forall i :: 0 <= i < |local| ==> local[i] in local;
      BranchNames(refs)
    }

    /**
     * `get_commits_by_author`: every commit with the author's email, local
     * branch after local branch, each in traversal order; a branch that
     * fails keeps what its traversal yielded and the next branch follows.
     */
    method GetCommitsByAuthor(author: Author) returns (commits: seq<RawCommit>)
      ensures commits == ByAuthor(LocalRefs(refs), author.email)
    {
      var branches := LocalRefs(refs);
      commits := [];
      var i := 0;
      while i < |branches|
        invariant 0 <= i <= |branches|
        invariant commits == ByAuthor(branches[..i], author.email)
      {
        var log := branches[i].log;
        var found := [];
        var j := 0;
        while j < |log|
          invariant 0 <= j <= |log|
          invariant found == LogByAuthor(log[..j], author.email)
        {
          assert log[..j + 1][..j] == log[..j];
          if log[j].authorEmail == author.email {
            found := found + [log[j]];
          }
          j := j + 1;
        }
        assert log[..j] == log;
        assert branches[..i + 1][..i] == branches[..i];
        commits := commits + found;
        i := i + 1;
      }
      assert branches[..i] == branches;
    }

    /** `get_commit_count_by_author`: the number of (local branch, commit) pairs of the author. */
    method GetCommitCountByAuthor(author: Author) returns (n: nat)
      ensures n == PairCount(refs, author.email)
    {
      var commits := GetCommitsByAuthor(author);
      ByAuthorCount(refs, author.email);
      n := |commits|;
    }

    /** `get_lines_changed_by_author`: the per-file line counts of the author's commits, summed. */
    method GetLinesChangedByAuthor(author: Author) returns (total: nat)
      ensures total == ChurnOf(ByAuthor(LocalRefs(refs), author.email))
    {
      var commits := GetCommitsByAuthor(author);
      total := 0;
      var i := 0;
      while i < |commits|
        invariant 0 <= i <= |commits|
        invariant total == LinesOf(commits[..i])
      {
        var files := commits[i].files;
        var lines := 0;
        var j := 0;
        while j < |files|
          invariant 0 <= j <= |files|
          invariant lines == SumFileLines(files[..j])
        {
          assert files[..j + 1][..j] == files[..j];
          lines := lines + FileLines(files[j]);
          j := j + 1;
        }
        assert files[..j] == files;
        assert commits[..i + 1][..i] == commits[..i];
        total := total + lines;
        i := i + 1;
      }
      assert commits[..i] == commits;
      LinesAreChurn(commits);
    }

    /** `get_file_types_by_author`: how many of the author's (commit, file) pairs have each key. */
    method GetFileTypesByAuthor(author: Author) returns (fileTypes: map<string, nat>)
      ensures fileTypes == TallyOf(Paths(ByAuthor(LocalRefs(refs), author.email)))
    {
      var commits := GetCommitsByAuthor(author);
      fileTypes := map[];
      var i := 0;
      while i < |commits|
        invariant 0 <= i <= |commits|
        invariant fileTypes == TallyOf(Paths(commits[..i]))
      {
        fileTypes := TallyFiles(fileTypes, commits[i].files, Paths(commits[..i]));
        PathsStep(commits, i);
        i := i + 1;
      }
      assert commits[..i] == commits;
    }

    /** The file loop of one commit: count the key of every file. */
    static method TallyFiles(fileTypes0: map<string, nat>, files: seq<FileStat>, ghost before: seq<string>)
      returns (fileTypes: map<string, nat>)
      requires fileTypes0 == TallyOf(before)
      ensures fileTypes == TallyOf(before + FilePaths(files))
    {
      fileTypes := fileTypes0;
      var j := 0;
      assert before + FilePaths(files[..0]) == before;
      while j < |files|
        invariant 0 <= j <= |files|
        invariant fileTypes == TallyOf(before + FilePaths(files[..j]))
      {
        TallyStep(before, files, j);
        fileTypes := Tally(fileTypes, Extension(files[j].path));
        j := j + 1;
      }
      assert files[..j] == files;
    }
  }
}
