/** Longest-suffix matching of a domain against the platform roots
    (catalogops/websites.go). Names compare without case (section 2.3.3 of RFC 1035). */
module PlatformRoots {
  import opened Basics
  import opened Ascii

  datatype Root = Root(domain: string, namespace: string, enabled: bool)

  datatype Claim = Claim(platformDomain: string, namespace: string, lbl: string)

  function SubdomainLabel(domain: string, root: string): string {
    var lower := ToLower(domain);
    var lbl := TrimSuffix(lower, "." + ToLower(root));
    if lbl == "" || lbl == lower then "" else lbl
  }

  /** `domain` is `lbl` under `root`, up to case. */
  predicate IsUnder(domain: string, lbl: string, root: string) {
    lbl != "" && ToLower(domain) == lbl + "." + ToLower(root)
  }

  lemma SubdomainLabelExact(domain: string, root: string, lbl: string)
    ensures lbl != "" ==> (SubdomainLabel(domain, root) == lbl <==> IsUnder(domain, lbl, root))
  {
    var lower, suffix := ToLower(domain), "." + ToLower(root);
    assert lbl + "." + ToLower(root) == lbl + suffix;
    assert (lbl + suffix)[|lbl|..] == suffix && (lbl + suffix)[..|lbl|] == lbl;
    if HasSuffix(lower, suffix) {
      assert lower == lower[..|lower| - |suffix|] + suffix;
    }
  }

  /** An enabled, non-empty root that `domain` is a proper subdomain of. */
  predicate Matches(domain: string, r: Root) {
    r.enabled && r.domain != "" && SubdomainLabel(domain, r.domain) != ""
  }

  lemma MatchesExact(domain: string, r: Root)
    ensures Matches(domain, r) <==> r.enabled && r.domain != "" && exists lbl :: IsUnder(domain, lbl, r.domain)
  {
    SubdomainLabelExact(domain, r.domain, SubdomainLabel(domain, r.domain));
    if lbl :| IsUnder(domain, lbl, r.domain) {
      SubdomainLabelExact(domain, r.domain, lbl);
    }
  }

  lemma NoMatchExact(domain: string, roots: seq<Root>)
    ensures (forall r :: r in roots ==> !Matches(domain, r)) <==>
              forall r, lbl :: r in roots && r.enabled && r.domain != "" ==> !IsUnder(domain, lbl, r.domain)
  {
    forall r ensures Matches(domain, r) <==>
                       r.enabled && r.domain != "" && exists lbl :: IsUnder(domain, lbl, r.domain) {
      MatchesExact(domain, r);
    }
  }

  /** Root `i` is the first of the longest matching ones among the first `n`. */
  predicate BestOf(domain: string, roots: seq<Root>, n: nat, i: nat) {
    && i < n <= |roots|
    && Matches(domain, roots[i])
    && (forall j :: 0 <= j < n && Matches(domain, roots[j]) ==> |roots[j].domain| <= |roots[i].domain|)
    && (forall j :: 0 <= j < i && Matches(domain, roots[j]) ==> |roots[j].domain| < |roots[i].domain|)
  }

  /** `claim` is the first of the longest matching roots, with its label. */
  ghost predicate LongestMatch(domain: string, roots: seq<Root>, claim: Claim) {
    exists i: nat ::
      && BestOf(domain, roots, |roots|, i)
      && claim.platformDomain == roots[i].domain && claim.namespace == roots[i].namespace
      && IsUnder(domain, claim.lbl, roots[i].domain)
  }

  method PlatformClaimForDomain(domain: string, roots: seq<Root>) returns (claim: Option<Claim>)
    ensures claim.None? <==>
              forall r, lbl :: r in roots && r.enabled && r.domain != "" ==> !IsUnder(domain, lbl, r.domain)
    ensures claim.Some? ==> LongestMatch(domain, roots, claim.value)
  {
    var bestPD, bestNS, bestLabel := "", "", "";
    var bestLen := 0;
    ghost var best: nat := 0;
    for i := 0 to |roots|
      invariant bestLen == |bestPD|
      invariant bestPD == "" ==> forall j :: 0 <= j < i ==> !Matches(domain, roots[j])
      invariant bestPD != "" ==>
                  && BestOf(domain, roots, i, best)
                  && bestPD == roots[best].domain && bestNS == roots[best].namespace
                  && bestLabel == SubdomainLabel(domain, bestPD)
    {
      var r := roots[i];
      if !r.enabled {
        continue;
      }
      var lbl := SubdomainLabel(domain, r.domain);
      if lbl == "" {
        continue;
      }
      if |r.domain| > bestLen {
        bestLen := |r.domain|;
        bestPD, bestNS, bestLabel := r.domain, r.namespace, lbl;
        best := i;
      }
    }
    NoMatchExact(domain, roots);
    if bestPD == "" {
      return None;
    }
    SubdomainLabelExact(domain, bestPD, bestLabel);
    assert roots[best] in roots;
    return Some(Claim(bestPD, bestNS, bestLabel));
  }

  /** Matching roots of one length are the same root up to case, under one label. */
  lemma EqualLengthSameRoot(domain: string, a: string, x: string, b: string, y: string)
    requires IsUnder(domain, a, x) && IsUnder(domain, b, y) && |x| == |y|
    ensures ToLower(x) == ToLower(y) && a == b
  {
    var lower := ToLower(domain);
    assert lower[|lower| - |x|..] == ToLower(x) && lower[|lower| - |y|..] == ToLower(y);
    assert lower[..|lower| - |x| - 1] == a && lower[..|lower| - |y| - 1] == b;
  }

  /** Listing the same roots in another order changes at most the casing and the
      namespace of the claim. */
  lemma ListOrderIrrelevant(domain: string, roots: seq<Root>, roots': seq<Root>, claim: Claim, claim': Claim)
    requires forall r :: r in roots <==> r in roots'
    requires LongestMatch(domain, roots, claim) && LongestMatch(domain, roots', claim')
    ensures claim.lbl == claim'.lbl
    ensures EqualFold(claim.platformDomain, claim'.platformDomain)
  {
    var i: nat :| BestOf(domain, roots, |roots|, i) && claim.platformDomain == roots[i].domain
      && IsUnder(domain, claim.lbl, roots[i].domain);
    var i': nat :| BestOf(domain, roots', |roots'|, i') && claim'.platformDomain == roots'[i'].domain
      && IsUnder(domain, claim'.lbl, roots'[i'].domain);
    assert roots[i] in roots' && roots'[i'] in roots;
    EqualLengthSameRoot(domain, claim.lbl, roots[i].domain, claim'.lbl, roots'[i'].domain);
  }
}
