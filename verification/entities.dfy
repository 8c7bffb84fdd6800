/**
 * The frozen domain entities. Dafny datatypes are immutable values, which is
 * what `@dataclass(frozen=True)` promises; the custom equality of each entity
 * is a predicate on its identity field, and its hash a function of that field.
 */
module Entities {
  import opened Wrappers

  /** An author; `totalCommits` is None unless given. */
  datatype Author = Author(name: string, email: string, totalCommits: Option<int>)

  /** The constructor call with the default for `total_commits`. */
  function NewAuthor(name: string, email: string): (a: Author)
    ensures a.name == name && a.email == email && a.totalCommits == None
  {
    Author(name, email, None)
  }

  /** Author.__eq__: authors are the same when their emails are. */
  predicate SameAuthor(a: Author, b: Author) {
    a.email == b.email
  }

  /** Author.__hash__ hashes the email; the model keeps the hashed value itself. */
  function AuthorHashKey(a: Author): string {
    a.email
  }

  /** Equality ignores the name and the commit count. */
  lemma AuthorEqualityIgnoresOtherFields(a: Author, name: string, totalCommits: Option<int>)
    ensures SameAuthor(a, a.(name := name, totalCommits := totalCommits))
    ensures forall b :: SameAuthor(a, b) <==> a.email == b.email
  {
  }

  /** Equal authors hash alike, and equality is an equivalence. */
  lemma AuthorHashAgreesWithEquality(a: Author, b: Author, c: Author)
    ensures SameAuthor(a, b) ==> AuthorHashKey(a) == AuthorHashKey(b)
    ensures SameAuthor(a, a)
    ensures SameAuthor(a, b) ==> SameAuthor(b, a)
    ensures SameAuthor(a, b) && SameAuthor(b, c) ==> SameAuthor(a, c)
  {
  }

  /** A point in time: UTC seconds and the UTC offset (seconds east) it was recorded with. */
  datatype Instant = Instant(seconds: int, offset: int)

  /** The seconds of the wall-clock reading of an instant. */
  function WallClock(t: Instant): int {
    t.seconds + t.offset
  }

  /** A commit on a branch; `message` is None unless given. */
  datatype Commit = Commit(
    hash: string,
    author: Author,
    date: Instant,
    branch: string,
    environment: string,
    filesChanged: nat,
    insertions: nat,
    deletions: nat,
    message: Option<string>)

  /** Commit.total_lines. */
  function TotalLines(c: Commit): nat {
    c.insertions + c.deletions
  }

  /** Commit.__eq__: commits are the same when their hashes are. */
  predicate SameCommit(c: Commit, d: Commit) {
    c.hash == d.hash
  }

  /** Commit.__hash__ hashes the `hash` field. */
  function CommitHashKey(c: Commit): string {
    c.hash
  }

  /** total_lines counts every inserted and every deleted line. */
  lemma TotalLinesIsChurn(c: Commit)
    ensures TotalLines(c) == c.insertions + c.deletions
    ensures TotalLines(c) >= c.insertions && TotalLines(c) >= c.deletions
    ensures TotalLines(c) == 0 <==> c.insertions == 0 && c.deletions == 0
  {
  }

  /** The same commit reached from two branches compares equal and hashes alike. */
  lemma CommitIdentityIsHash(c: Commit, branch: string, environment: string)
    ensures SameCommit(c, c.(branch := branch, environment := environment))
    ensures forall d :: SameCommit(c, d) ==> CommitHashKey(c) == CommitHashKey(d)
  {
  }
}
