/** `RoleConfig` and `SystemManager.determine_role`: an e-mail address is
    classified by the suffix of its domain, student suffixes first.
 */
module Roles {
  import opened Wrappers
  import opened Text
  import opened Checks

  datatype Role = Student | Staff

  /** Two ordered lists of domain suffixes. */
  datatype RoleConfig = RoleConfig(studentDomains: seq<string>, staffDomains: seq<string>)

  /** The constructor's default lists. */
  const DefaultRoles: RoleConfig := RoleConfig(["alustudent.com"], ["alueducation.com"])

  /** Some suffix of `suffixes` ends `domain`. */
  predicate MatchesAny(domain: string, suffixes: seq<string>) {
    exists i :: 0 <= i < |suffixes| && EndsWith(domain, suffixes[i])
  }

  /** The `for d in ...: if domain.endswith(d)` loop. */
  function ScanSuffixes(domain: string, suffixes: seq<string>): (found: bool)
    ensures found <==> MatchesAny(domain, suffixes)
  {
    if |suffixes| == 0 then false
    else if EndsWith(domain, suffixes[0]) then true
    else
      assert forall i :: 1 <= i < |suffixes| ==> suffixes[i] == suffixes[1..][i - 1];
      ScanSuffixes(domain, suffixes[1..])
  }

  /** The normalised address: stripped and lower-cased. */
  function Normalise(email: string): string {
    Lower(Trim(email))
  }

  /** The domain: everything after the first '@' of the normalised address. */
  function Domain(email: string): string
    requires '@' in Normalise(email)
  {
    AfterFirst(Normalise(email), '@')
  }

  /** `determine_role`. */
  function DetermineRole(cfg: RoleConfig, email: string): (r: Result<Role>)
    ensures AllSpace(email) ==> r == Fail(ValidationError)
    ensures '@' !in Normalise(email) ==> r == Fail(ValidationError)
    ensures r == Ok(Student) <==>
      '@' in Normalise(email) && MatchesAny(Domain(email), cfg.studentDomains)
    ensures r == Ok(Staff) <==>
      && '@' in Normalise(email)
      && !MatchesAny(Domain(email), cfg.studentDomains)
      && MatchesAny(Domain(email), cfg.staffDomains)
    ensures r.Fail? ==> r.error == ValidationError
  {
    var trimmed :- RequireNonempty(email);
    var e := Lower(trimmed);
    if '@' !in e then Fail(ValidationError)
    else
      var domain := AfterFirst(e, '@');
      if ScanSuffixes(domain, cfg.studentDomains) then Ok(Student)
      else if ScanSuffixes(domain, cfg.staffDomains) then Ok(Staff)
      else Fail(ValidationError)
  }

  /** A domain that both lists accept is a student domain. */
  lemma StudentDomainsWin(cfg: RoleConfig, email: string)
    requires '@' in Normalise(email)
    requires MatchesAny(Domain(email), cfg.staffDomains)
    ensures MatchesAny(Domain(email), cfg.studentDomains) <==> DetermineRole(cfg, email) == Ok(Student)
    ensures DetermineRole(cfg, email).Ok?
  {
  }

  /** For an address already in normal form, the domain is the text after
      its first '@'. */
  lemma NormalFormDomain(email: string, local: string, domain: string)
    requires Trimmed(email) && Lower(email) == email
    requires email == local + "@" + domain && '@' !in local
    ensures Normalise(email) == email && '@' in email
    ensures Domain(email) == domain
  {
    assert email[|local|] == '@';
    assert email[..|local|] == local;
    assert IndexOf(email, '@') == Some(|local|);
  }

  /** The matching is by suffix: a sub-domain of a configured student domain
      is a student domain. */
  lemma SubdomainsMatch(cfg: RoleConfig, local: string, sub: string, suffix: string)
    requires '@' !in local
    requires Trimmed(local + "@" + sub + suffix)
    requires Lower(local + "@" + sub + suffix) == local + "@" + sub + suffix
    requires suffix in cfg.studentDomains
    ensures DetermineRole(cfg, local + "@" + sub + suffix) == Ok(Student)
  {
    var email := local + "@" + sub + suffix;
    assert Domain(email) == sub + suffix && '@' in Normalise(email) by {
      assert email == local + "@" + (sub + suffix);
      NormalFormDomain(email, local, sub + suffix);
    }
    assert MatchesAny(sub + suffix, cfg.studentDomains) by {
      var i :| 0 <= i < |cfg.studentDomains| && cfg.studentDomains[i] == suffix;
      assert (sub + suffix)[|sub|..] == suffix;
    }
  }

  /** "a@campus.edu" with staff domains ("campus.edu",) and no student
      domains is staff. */
  lemma StaffExample()
    ensures DetermineRole(RoleConfig([], ["campus.edu"]), "a@campus.edu") == Ok(Staff)
  {
    var e := "a@campus.edu";
    assert Trimmed(e);
    assert Lower(e) == e;
    assert e == "a" + "@" + "campus.edu";
    NormalFormDomain(e, "a", "campus.edu");
    assert EndsWith(Domain(e), "campus.edu");
  }

  /** An address without '@' is rejected. */
  lemma MissingAtExample()
    ensures DetermineRole(DefaultRoles, "nobody.campus.edu") == Fail(ValidationError)
  {
    var f := "nobody.campus.edu";
    assert Trimmed(f);
    assert Lower(f) == f;
    assert '@' !in Normalise(f);
  }
}
