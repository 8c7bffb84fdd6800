/**
 * The environment classifier: a branch name is production (PRD) exactly when
 * its lower-cased form is "main" or "master", and homologation (HML) otherwise.
 */
module Environment {
  import opened Strings

  datatype EnvironmentType = Production | Homologation

  /** The two names the classifier treats as production. */
  const ProductionNames: seq<string> := ["main", "master"]

  /** EnvironmentType.from_branch: membership of the lower-cased name in ProductionNames. */
  function FromBranch(branchName: string): EnvironmentType {
    if Lower(branchName) in ProductionNames then Production else Homologation
  }

  /** EnvironmentType.__str__. */
  function ToString(e: EnvironmentType): (s: string)
    ensures s == "PRD" <==> e == Production
    ensures s == "HML" <==> e == Homologation
  {
    assert "PRD"[0] != "HML"[0];
    match e
    case Production => "PRD"
    case Homologation => "HML"
  }

  /**
   * The string-valued copy of the rule that git_metrics.py, repository_metrics.py
   * and the older infrastructure repository each write out inline.
   */
  function ClassifyBranch(branchName: string): string {
    if Lower(branchName) in ["main", "master"] then "PRD" else "HML"
  }

  /** Case-insensitive equality, character by character: an independent reading of the rule. */
  predicate EqualsIgnoringCase(a: string, b: string) {
    |a| == |b| && forall i :: 0 <= i < |a| ==> LowerChar(a[i]) == LowerChar(b[i])
  }

  lemma LowerEqualsLiteral(s: string, lit: string)
    requires Lower(lit) == lit
    ensures Lower(s) == lit <==> EqualsIgnoringCase(s, lit)
  {
    if EqualsIgnoringCase(s, lit) {
      assert forall i :: 0 <= i < |s| ==> Lower(s)[i] == LowerChar(lit[i]) == Lower(lit)[i];
    }
  }

  /** from_branch returns PRODUCTION exactly for case variants of "main" and "master". */
  lemma {:induction false} ProductionIffMainOrMaster(branchName: string)
    ensures FromBranch(branchName) == Production
        <==> EqualsIgnoringCase(branchName, "main") || EqualsIgnoringCase(branchName, "master")
    ensures FromBranch(branchName) == Homologation
        <==> !EqualsIgnoringCase(branchName, "main") && !EqualsIgnoringCase(branchName, "master")
  {
    assert Lower("main") == "main";
    assert Lower("master") == "master";
    LowerEqualsLiteral(branchName, "main");
    LowerEqualsLiteral(branchName, "master");
  }

  /** Classification ignores case: a name and its lower-cased form are classified alike. */
  lemma {:induction false} CaseInsensitive(branchName: string)
    ensures FromBranch(branchName) == FromBranch(Lower(branchName))
  {
    LowerIdempotent(branchName);
  }

  /** The copies of the rule in the other files agree with the enum's rendering. */
  lemma ClassifyAgreesWithEnum(branchName: string)
    ensures ClassifyBranch(branchName) == ToString(FromBranch(branchName))
    ensures ClassifyBranch(branchName) == "PRD" || ClassifyBranch(branchName) == "HML"
  {
  }

  /** Only the exact names match: a few names that are and are not production. */
  lemma Examples()
    ensures FromBranch("Main") == Production && FromBranch("MASTER") == Production
    ensures FromBranch("main") == Production
    ensures FromBranch("main2") == Homologation
    ensures FromBranch("feature/main") == Homologation
    ensures FromBranch("develop") == Homologation
  {
    assert Lower("Main") == "main";
    assert Lower("MASTER") == "master";
    assert Lower("main") == "main";
    assert |Lower("main2")| == 5;
    assert |Lower("feature/main")| == 12;
    assert |Lower("develop")| == 7 && Lower("develop")[0] == 'd';
  }
}
