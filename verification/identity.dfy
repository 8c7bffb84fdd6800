/**
 * The canonical-name resolver `get_most_recent_name_for_email`, written out
 * twice in the program (git_metrics.py and repository_metrics.py, the same
 * loop), and the in-place rewrite of every record's author name.
 *
 * The loop keeps, per email, the name and date of the record that replaced the
 * entry last; a record replaces it only when its date is strictly later, so
 * among records with the same latest date the first one in input order wins.
 */
module Identity {
  import opened Aggregation
  import opened Records

  /** What the two dictionaries hold for one email. */
  datatype Latest = Latest(name: string, date: int)

  /** One iteration of the loop. */
  function Step(m: map<string, Latest>, r: Record): map<string, Latest> {
    if r.email !in m || r.date > m[r.email].date then m[r.email := Latest(r.name, r.date)] else m
  }

  /** The two dictionaries after the loop has run over rs. */
  function Resolution(rs: seq<Record>): map<string, Latest> {
    if rs == [] then map[] else Step(Resolution(rs[..|rs| - 1]), rs[|rs| - 1])
  }

  /** The returned `email_to_name`. */
  function NameMap(rs: seq<Record>): map<string, string> {
    map e | e in Resolution(rs) :: Resolution(rs)[e].name
  }

  /** The emails of the records. */
  function Emails(rs: seq<Record>): set<string> {
    set i | 0 <= i < |rs| :: rs[i].email
  }

  /**
   * The reference reading: record i has email e, no record with e is later,
   * and every earlier record with e is strictly earlier.
   */
  predicate IsLatest(rs: seq<Record>, e: string, i: int) {
    && 0 <= i < |rs|
    && rs[i].email == e
    && (forall j :: 0 <= j < |rs| && rs[j].email == e ==> rs[j].date <= rs[i].date)
    && (forall j :: 0 <= j < i && rs[j].email == e ==> rs[j].date < rs[i].date)
  }

  /** At most one record is the latest for an email. */
  lemma LatestUnique(rs: seq<Record>, e: string, i: int, j: int)
    requires IsLatest(rs, e, i) && IsLatest(rs, e, j)
    ensures i == j
  {
  }

  lemma EmailsSnoc(rs: seq<Record>, r: Record)
    ensures Emails(rs + [r]) == Emails(rs) + {r.email}
  {
    var u := rs + [r];
    assert u[|rs|].email == r.email;
    forall e | e in Emails(rs) ensures e in Emails(u) {
      var i :| 0 <= i < |rs| && rs[i].email == e;
      assert u[i].email == e;
    }
    forall e | e in Emails(u) ensures e in Emails(rs) + {r.email} {
      var i :| 0 <= i < |u| && u[i].email == e;
      if i < |rs| {
        assert rs[i].email == e;
      }
    }
  }

  /** Appending a record with another email keeps the latest record of e. */
  lemma LatestOtherEmail(p: seq<Record>, r: Record, e: string, i: int)
    requires IsLatest(p, e, i) && r.email != e
    ensures IsLatest(p + [r], e, i)
  {
    var rs := p + [r];
    forall j | 0 <= j < |rs| && rs[j].email == e ensures rs[j].date <= rs[i].date {
      assert j < |p| && rs[j] == p[j];
    }
  }

  /** Appending a record no later than the latest of e keeps that latest record. */
  lemma LatestNotLater(p: seq<Record>, r: Record, e: string, i: int)
    requires IsLatest(p, e, i) && r.date <= p[i].date
    ensures IsLatest(p + [r], e, i)
  {
    var rs := p + [r];
    forall j | 0 <= j < |rs| && rs[j].email == e ensures rs[j].date <= rs[i].date {
      if j < |p| {
        assert rs[j] == p[j];
      }
    }
  }

  /** Appending a record strictly later than every record of its email makes it the latest. */
  lemma LatestNew(p: seq<Record>, r: Record)
    requires forall j :: 0 <= j < |p| && p[j].email == r.email ==> p[j].date < r.date
    ensures IsLatest(p + [r], r.email, |p|)
  {
    var rs := p + [r];
    forall j | 0 <= j < |rs| && rs[j].email == r.email ensures rs[j].date <= r.date {
      if j < |p| {
        assert rs[j] == p[j];
      }
    }
  }

  /** m is the reference reading of rs: the emails of rs, each with its latest record. */
  ghost predicate Resolves(rs: seq<Record>, m: map<string, Latest>) {
    && m.Keys == Emails(rs)
    && forall e :: e in m ==> exists i :: IsLatest(rs, e, i) && m[e] == Latest(rs[i].name, rs[i].date)
  }

  /** One iteration of the loop carries the reference reading over one more record. */
  lemma StepResolves(p: seq<Record>, r: Record, m: map<string, Latest>)
    requires Resolves(p, m)
    ensures Resolves(p + [r], Step(m, r))
  {
    var rs := p + [r];
    var m' := Step(m, r);
    EmailsSnoc(p, r);
    forall e | e in m'
      ensures exists i :: IsLatest(rs, e, i) && m'[e] == Latest(rs[i].name, rs[i].date)
    {
      if e != r.email {
        var i :| IsLatest(p, e, i) && m[e] == Latest(p[i].name, p[i].date);
        LatestOtherEmail(p, r, e, i);
        assert rs[i] == p[i];
      } else if e !in m {
        LatestNew(p, r);
      } else {
        var i :| IsLatest(p, e, i) && m[e] == Latest(p[i].name, p[i].date);
        if r.date > m[e].date {
          LatestNew(p, r);
        } else {
          LatestNotLater(p, r, e, i);
          assert rs[i] == p[i];
        }
      }
    }
  }

  /**
   * The loop computes the reference reading: its keys are exactly the emails
   * of the records, and for each email it holds the name and date of the
   * first record among those with the latest date.
   */
  lemma {:induction false} ResolutionSpec(rs: seq<Record>)
    ensures Resolution(rs).Keys == Emails(rs)
    ensures forall e :: e in Resolution(rs) ==>
      exists i :: IsLatest(rs, e, i) && Resolution(rs)[e] == Latest(rs[i].name, rs[i].date)
  {
    if rs != [] {
      var p := rs[..|rs| - 1];
      var r := rs[|rs| - 1];
      ResolutionSpec(p);
      assert rs == p + [r];
      StepResolves(p, r, Resolution(p));
    }
  }

  /** The returned map names every email of the records with the name of its latest record. */
  lemma NameMapSpec(rs: seq<Record>)
    ensures NameMap(rs).Keys == Emails(rs)
    ensures forall e, i :: e in NameMap(rs) && IsLatest(rs, e, i) ==> NameMap(rs)[e] == rs[i].name
  {
    ResolutionSpec(rs);
    forall e, i | e in NameMap(rs) && IsLatest(rs, e, i) ensures NameMap(rs)[e] == rs[i].name {
      var k :| IsLatest(rs, e, k) && Resolution(rs)[e] == Latest(rs[k].name, rs[k].date);
      LatestUnique(rs, e, i, k);
    }
  }

  /** Every email of the records has a latest record. */
  lemma LatestExists(rs: seq<Record>, e: string)
    requires e in Emails(rs)
    ensures exists i :: IsLatest(rs, e, i)
  {
    ResolutionSpec(rs);
  }

  /** `get_most_recent_name_for_email`: the loop over the two dictionaries. */
  method MostRecentNames(rs: seq<Record>) returns (emailToName: map<string, string>)
    ensures emailToName == NameMap(rs)
    ensures emailToName.Keys == Emails(rs)
    ensures forall e, i :: e in emailToName && IsLatest(rs, e, i) ==> emailToName[e] == rs[i].name
  {
    emailToName := map[];
    var emailToDate: map<string, int> := map[];
    var k := 0;
    while k < |rs|
      invariant 0 <= k <= |rs|
      invariant emailToName.Keys == Resolution(rs[..k]).Keys
      invariant emailToDate.Keys == Resolution(rs[..k]).Keys
      invariant forall e :: e in emailToName ==>
        Resolution(rs[..k])[e] == Latest(emailToName[e], emailToDate[e])
    {
      var r := rs[k];
      assert rs[..k + 1][..k] == rs[..k];
      if r.email !in emailToDate || r.date > emailToDate[r.email] {
        emailToDate := emailToDate[r.email := r.date];
        emailToName := emailToName[r.email := r.name];
      }
      k := k + 1;
    }
    assert rs[..k] == rs;
    NameMapSpec(rs);
  }

  /** Every record with its author name replaced by the one the map gives for its email. */
  function Renamed(rs: seq<Record>, names: map<string, string>): (out: seq<Record>)
    requires forall i :: 0 <= i < |rs| ==> rs[i].email in names
    ensures |out| == |rs|
  {
    seq(|rs|, i requires 0 <= i < |rs| => rs[i].(name := names[rs[i].email]))
  }

  /** The rewrite loop: `commit['nome_autor'] = email_to_name[commit['email_autor']]` for each record. */
  method RenameInPlace(a: array<Record>, names: map<string, string>)
    requires forall i :: 0 <= i < a.Length ==> a[i].email in names
    modifies a
    ensures a[..] == Renamed(old(a[..]), names)
  {
    var k := 0;
    while k < a.Length
      invariant 0 <= k <= a.Length
      invariant forall i :: 0 <= i < k ==> a[i] == old(a[i]).(name := names[old(a[i]).email])
      invariant forall i :: k <= i < a.Length ==> a[i] == old(a[i])
    {
      a[k] := a[k].(name := names[a[k].email]);
      k := k + 1;
    }
  }

  /** The records of rs all have their email in the resolved map. */
  lemma EmailsResolved(rs: seq<Record>)
    ensures forall i :: 0 <= i < |rs| ==> rs[i].email in NameMap(rs)
  {
    NameMapSpec(rs);
    forall i | 0 <= i < |rs| ensures rs[i].email in Emails(rs) {
    }
  }

  /** The records after name resolution. */
  function Resolved(rs: seq<Record>): (out: seq<Record>)
    ensures |out| == |rs|
  {
    EmailsResolved(rs);
    Renamed(rs, NameMap(rs))
  }

  /**
   * After resolution every record with an email carries the name of that
   * email's latest record, so records with the same email carry the same
   * name; nothing but the name changes.
   */
  lemma ResolvedSpec(rs: seq<Record>)
    ensures forall i, j :: 0 <= i < |rs| && IsLatest(rs, rs[i].email, j) ==> Resolved(rs)[i].name == rs[j].name
    ensures forall i, j :: 0 <= i < |rs| && 0 <= j < |rs| && rs[i].email == rs[j].email ==>
      Resolved(rs)[i].name == Resolved(rs)[j].name
    ensures forall i :: 0 <= i < |rs| ==> Resolved(rs)[i] == rs[i].(name := Resolved(rs)[i].name)
  {
    EmailsResolved(rs);
    NameMapSpec(rs);
  }

  /** Resolution changes no email, so grouping keys that do not read the name are unaffected. */
  lemma ResolvedKeepsEmails(rs: seq<Record>)
    ensures Emails(Resolved(rs)) == Emails(rs)
    ensures forall i :: 0 <= i < |rs| ==> Resolved(rs)[i].email == rs[i].email
  {
    ResolvedSpec(rs);
    var out := Resolved(rs);
    forall e | e in Emails(rs) ensures e in Emails(out) {
      var i :| 0 <= i < |rs| && rs[i].email == e;
      assert out[i].email == e;
    }
    forall e | e in Emails(out) ensures e in Emails(rs) {
      var i :| 0 <= i < |out| && out[i].email == e;
      assert rs[i].email == e;
    }
  }

  lemma {:induction false} TotalSameMeasures(a: seq<Record>, b: seq<Record>)
    requires |a| == |b|
    requires forall i :: 0 <= i < |a| ==> Measure(a[i]) == Measure(b[i])
    ensures Total(a) == Total(b)
  {
    if a != [] {
      TotalSameMeasures(a[..|a| - 1], b[..|b| - 1]);
    }
  }

  /** Resolution changes no measure: the records' total is unchanged. */
  lemma ResolvedTotal(rs: seq<Record>)
    ensures Total(Resolved(rs)) == Total(rs)
  {
    ResolvedSpec(rs);
    TotalSameMeasures(Resolved(rs), rs);
  }

  /**
   * In a table grouped after resolution by a key that holds the email, every
   * row's `first` name is the name of the latest record of that email.
   */
  predicate NamedByLatest<K>(t: seq<Row<K>>, rs: seq<Record>, emailOf: K -> string) {
    forall i :: 0 <= i < |t| ==> exists j :: 0 <= j < |rs| && IsLatest(rs, emailOf(t[i].key), j) && t[i].name == rs[j].name
  }

  lemma GroupedNamesResolved<K>(rs: seq<Record>, keyOf: Record -> K, emailOf: K -> string)
    requires forall r :: emailOf(keyOf(r)) == r.email
    ensures NamedByLatest(Group(Resolved(rs), keyOf), rs, emailOf)
  {
    var out := Resolved(rs);
    var t := Group(out, keyOf);
    GroupNames(out, keyOf);
    ResolvedSpec(rs);
    ResolvedKeepsEmails(rs);
    forall i | 0 <= i < |t|
      ensures exists j :: IsLatest(rs, emailOf(t[i].key), j) && t[i].name == rs[j].name
    {
      var k := t[i].key;
      var w := WithKey(out, keyOf, k);
      WithKeyMembers(out, keyOf, k);
      assert w[0] in out;
      var m :| 0 <= m < |out| && out[m] == w[0];
      assert rs[m].email in Emails(rs);
      LatestExists(rs, rs[m].email);
      var j :| IsLatest(rs, rs[m].email, j);
      assert IsLatest(rs, emailOf(k), j);
    }
  }

  /** The rows of a table hold all of the records' measures, and count every record once. */
  predicate SumsTo<K>(t: seq<Row<K>>, rs: seq<Record>) {
    SumRows(t) == Total(rs) && SumRows(t).commits == |rs|
  }

  /** Grouping the resolved records loses and duplicates no record. */
  lemma ResolvedSum<K>(rs: seq<Record>, keyOf: Record -> K)
    ensures SumsTo(Group(Resolved(rs), keyOf), rs)
  {
    GroupSum(Resolved(rs), keyOf);
    ResolvedTotal(rs);
  }
}
