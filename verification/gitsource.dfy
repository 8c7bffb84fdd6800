/**
 * What the version-control library hands the program, taken as input data.
 *
 * A reference carries the commits its traversal yields, in traversal order.
 * When the traversal raises part-way (`failed`), `log` holds the commits it
 * yielded before that point: every loop of the program appends inside the
 * traversal, so those commits have already been processed when the error
 * reaches the handler, and the handler moves on to the next reference.
 */
module GitSource {
  import opened Strings

  /** One file of a commit's statistics. */
  datatype FileStat = FileStat(path: string, insertions: nat, deletions: nat)

  /** A commit as the library exposes it: its commit time (`committed_datetime`) in UTC seconds plus the committer's UTC offset. */
  datatype RawCommit = RawCommit(
    sha: string,
    authorName: string,
    authorEmail: string,
    timestamp: int,
    offset: int,
    message: string,
    files: seq<FileStat>)

  /**
   * A reference: its name, the commits its traversal yields, and whether the
   * traversal raised. The program treats both kinds alike (it keeps what was
   * yielded and carries on), so `failed` only marks which inputs model a
   * raising traversal; no operation reads it.
   */
  datatype Ref = Ref(name: string, log: seq<RawCommit>, failed: bool)

  /** `stats.total['files']`: the number of files the commit touches. */
  function FilesChanged(c: RawCommit): nat {
    |c.files|
  }

  function SumInsertions(fs: seq<FileStat>): nat {
    if fs == [] then 0 else SumInsertions(fs[..|fs| - 1]) + fs[|fs| - 1].insertions
  }

  function SumDeletions(fs: seq<FileStat>): nat {
    if fs == [] then 0 else SumDeletions(fs[..|fs| - 1]) + fs[|fs| - 1].deletions
  }

  /** `stats.total['insertions']`. */
  function Insertions(c: RawCommit): nat {
    SumInsertions(c.files)
  }

  /** `stats.total['deletions']`. */
  function Deletions(c: RawCommit): nat {
    SumDeletions(c.files)
  }

  /** `hexsha[:8]`. */
  function ShortHash(c: RawCommit): (h: string)
    ensures |h| <= 8 && h <= c.sha
    ensures |c.sha| >= 8 ==> |h| == 8
  {
    Take(c.sha, 8)
  }

  /** Remote-tracking references are the ones whose name starts with "origin/". */
  predicate IsRemote(name: string) {
    StartsWith(name, "origin/")
  }

  /** The references that are not remote-tracking, in their order. */
  function LocalRefs(refs: seq<Ref>): (r: seq<Ref>)
    ensures |r| <= |refs|
    ensures forall x :: x in r <==> x in refs && !IsRemote(x.name)
  {
    if refs == [] then []
    else LocalRefs(refs[..|refs| - 1]) + (if IsRemote(refs[|refs| - 1].name) then [] else [refs[|refs| - 1]])
  }

  /** `get_all_branches` / `get_branches`: the names of the local references, in order. */
  function BranchNames(refs: seq<Ref>): (names: seq<string>)
    ensures |names| == |LocalRefs(refs)|
    ensures forall i :: 0 <= i < |names| ==> names[i] == LocalRefs(refs)[i].name
    ensures forall n :: n in names <==> exists x :: x in refs && x.name == n && !IsRemote(n)
  {
    var local := LocalRefs(refs);
    var names := seq(|local|, i requires 0 <= i < |local| => local[i].name);
    assert forall n :: n in names ==> exists x :: x in refs && x.name == n && !IsRemote(n) by {
      forall n | n in names ensures exists x :: x in refs && x.name == n && !IsRemote(n) {
        var i :| 0 <= i < |names| && names[i] == n;
        assert local[i] in local;
      }
    }
    assert forall n :: (exists x :: x in refs && x.name == n && !IsRemote(n)) ==> n in names by {
      forall n | exists x :: x in refs && x.name == n && !IsRemote(n) ensures n in names {
        var x :| x in refs && x.name == n && !IsRemote(n);
        var i :| 0 <= i < |local| && local[i] == x;
        assert names[i] == n;
      }
    }
    names
  }

  /** The lines a file's statistics count: its inserted plus its deleted lines. */
  function FileLines(f: FileStat): nat {
    f.insertions + f.deletions
  }

  function SumFileLines(fs: seq<FileStat>): nat {
    if fs == [] then 0 else SumFileLines(fs[..|fs| - 1]) + FileLines(fs[|fs| - 1])
  }

  /** Summing the per-file line counts gives the commit's insertions plus deletions. */
  lemma {:induction false} FileLinesTotal(fs: seq<FileStat>)
    ensures SumFileLines(fs) == SumInsertions(fs) + SumDeletions(fs)
  {
    if fs != [] {
      FileLinesTotal(fs[..|fs| - 1]);
    }
  }

  lemma {:induction false} LocalRefsConcat(a: seq<Ref>, b: seq<Ref>)
    ensures LocalRefs(a + b) == LocalRefs(a) + LocalRefs(b)
    decreases |b|
  {
    if b == [] {
      assert a + b == a;
    } else {
      var b' := b[..|b| - 1];
      assert (a + b)[..|a + b| - 1] == a + b';
      LocalRefsConcat(a, b');
    }
  }
}
