/** The extractor configurations of the example driver, evaluated on its
    example URLs. The driver's `hostname_equals_matcher` factory is taken to
    be a host matcher on the given name.

    The lemmas about one example URL take it as a parameter `url` required to
    equal the constant, rather than naming the constant in their `ensures`.
    Naming the literal there lets the verifier unfold `Split` over every
    character of the path at each use, which exhausts its resources; behind a
    parameter the path stays folded until `IssueUrlSegments` or
    `BlobUrlSegments` computes its segments once. */
module Scenarios {
  import opened Outcomes
  import opened Builtins
  import opened UrlUtils
  import opened Matchers
  import opened DataExtractors

  const IssueUrl := Url(Some("github.com"), "/PluMGMK/vbesvga.drv/issues/113")
  /** `/hynek/hello-svc-part-2/blob/main/pyproject.toml`, written piece by piece. */
  const BlobUrl := Url(Some("github.com"), "/" + "hynek" + "/" + "hello-svc-part-2" + "/" + "blob" + "/" + "main" + "/" + "pyproject.toml")
  const NoPathUrl := Url(Some("youtube.com"), "")

  /** A path of four segments, each behind one slash. */
  lemma FourSegments(path: string, a: string, b: string, c: string, d: string)
    requires IsSegment(a) && IsSegment(b) && IsSegment(c) && IsSegment(d)
    requires path == "/" + a + "/" + b + "/" + c + "/" + d
    ensures PathSegments(path) == [a, b, c, d]
  {
    var p3 := c + "/" + d;
    var p2 := b + "/" + p3;
    var p1 := a + "/" + p2;
    assert "/" + a + "/" + b + "/" + c + "/" + d == "/" + p1;
    SlashesCollapse("", p1);
    LeadingSegment(a, p2);
    LeadingSegment(b, p3);
    LeadingSegment(c, d);
    SingleSegment(d);
  }

  /** A path of five segments, each behind one slash. */
  lemma FiveSegments(path: string, a: string, b: string, c: string, d: string, e: string)
    requires IsSegment(a) && IsSegment(b) && IsSegment(c) && IsSegment(d) && IsSegment(e)
    requires path == "/" + a + "/" + b + "/" + c + "/" + d + "/" + e
    ensures PathSegments(path) == [a, b, c, d, e]
  {
    var p4 := d + "/" + e;
    var p3 := c + "/" + p4;
    var p2 := b + "/" + p3;
    var p1 := a + "/" + p2;
    assert "/" + a + "/" + b + "/" + c + "/" + d + "/" + e == "/" + p1;
    SlashesCollapse("", p1);
    LeadingSegment(a, p2);
    LeadingSegment(b, p3);
    LeadingSegment(c, p4);
    LeadingSegment(d, e);
    SingleSegment(e);
  }

  lemma IssueUrlSegments(url: Url)
    requires url == IssueUrl
    ensures UrlPathParts(url) == ["PluMGMK", "vbesvga.drv", "issues", "113"]
  {
    FourSegments(url.path, "PluMGMK", "vbesvga.drv", "issues", "113");
  }

  lemma BlobUrlSegments(url: Url)
    requires url == BlobUrl
    ensures UrlPathParts(url) == ["hynek", "hello-svc-part-2", "blob", "main", "pyproject.toml"]
  {
    FiveSegments(url.path, "hynek", "hello-svc-part-2", "blob", "main", "pyproject.toml");
  }

  /** Host `github.com` and segment -2 equal to `issues`. */
  const IssueMatcher := CompoundMatcher([HostMatcher("github.com"), PathPartsMatcher([(-2, "issues")])])

  /** Host `github.com` and segment 2 equal to `blob`. */
  const BlobMatcher := CompoundMatcher([HostMatcher("github.com"), PathPartsMatcher([(2, "blob")])])

  /** The issue extractor: org, repo and issue number from segments 0, 1 and -1. */
  const IssueDataExtractor := UrlDataExtractor(IssueMatcher, [
    ("org", PathPartDataExtractor(0)),
    ("repo", PathPartDataExtractor(1)),
    ("issue", PathPartDataExtractor(-1))])

  /** The driver's builder chains produce the matchers above. */
  lemma MatchersAreBuilt()
    ensures BuildPathParts(WithValueAtIndex(PathPartsBuilder([]), -2, "issues")) == Ok(PathPartsMatcher([(-2, "issues")]))
    ensures BuildPathParts(WithValueAtIndex(PathPartsBuilder([]), 2, "blob")) == Ok(PathPartsMatcher([(2, "blob")]))
    ensures BuildCompound(WithMatcher(WithMatcher(CompoundBuilder([]), HostMatcher("github.com")), PathPartsMatcher([(-2, "issues")])))
              == Ok(IssueMatcher)
    ensures BuildCompound(WithMatcher(WithMatcher(CompoundBuilder([]), HostMatcher("github.com")), PathPartsMatcher([(2, "blob")])))
              == Ok(BlobMatcher)
  {
    assert [] + [HostMatcher("github.com")] + [PathPartsMatcher([(-2, "issues")])] == IssueMatcher.matchers;
    assert [] + [HostMatcher("github.com")] + [PathPartsMatcher([(2, "blob")])] == BlobMatcher.matchers;
  }

  /** The driver's builder chain produces the issue extractor above. */
  lemma IssueExtractorIsBuilt()
    ensures Build(
              WithDataElementExtractor(
                WithDataElementExtractor(
                  WithDataElementExtractor(WithUrlMatcher(NewBuilder(), IssueMatcher), "org", PathPartDataExtractor(0)),
                  "repo", PathPartDataExtractor(1)),
                "issue", PathPartDataExtractor(-1)))
            == Ok(IssueDataExtractor)
  {
    var e0, e1, e2 := PathPartDataExtractor(0), PathPartDataExtractor(1), PathPartDataExtractor(-1);
    var b0 := WithUrlMatcher(NewBuilder(), IssueMatcher);
    var b1 := WithDataElementExtractor(b0, "org", e0);
    assert b1.elementExtractors == [("org", e0)];
    var b2 := WithDataElementExtractor(b1, "repo", e1);
    assert b2.elementExtractors == [("org", e0), ("repo", e1)];
    var b3 := WithDataElementExtractor(b2, "issue", e2);
    assert b3.elementExtractors == [("org", e0), ("repo", e1), ("issue", e2)];
  }

  /** On the issue URL every extractor of the issue extractor succeeds. */
  lemma IssueExtractorsSucceed(url: Url)
    requires UrlPathParts(url) == ["PluMGMK", "vbesvga.drv", "issues", "113"]
    ensures ExtractAll(IssueDataExtractor.elementExtractors, url) == Ok([("org", "PluMGMK"), ("repo", "vbesvga.drv"), ("issue", "113")])
  {
    var es := IssueDataExtractor.elementExtractors;
    assert ExtractElement(es[0].1, url) == Ok("PluMGMK");
    assert ExtractElement(es[1].1, url) == Ok("vbesvga.drv");
    assert ExtractElement(es[2].1, url) == Ok("113");
    var r := ExtractAll(es, url);
    assert r.Ok? && |r.value| == 3;
    assert r.value[0] == ("org", "PluMGMK") && r.value[1] == ("repo", "vbesvga.drv") && r.value[2] == ("issue", "113");
    assert r.value == [r.value[0], r.value[1], r.value[2]];
  }

  /** The issue URL yields its organisation, repository and issue number. */
  lemma IssueUrlExtracts(url: Url)
    requires url == IssueUrl
    ensures ExtractUrlData(IssueDataExtractor, url) == Ok([("org", "PluMGMK"), ("repo", "vbesvga.drv"), ("issue", "113")])
  {
    IssueUrlSegments(url);
    IssueMatcherAccepts(url);
    IssueExtractorsSucceed(url);
  }

  /** The issue matcher accepts a URL whose host is `github.com` and whose
      segment -2 is `issues`. */
  lemma IssueMatcherAccepts(url: Url)
    requires url.hostname == Some("github.com")
    requires |UrlPathParts(url)| >= 2 && UrlPathParts(url)[|UrlPathParts(url)| - 2] == "issues"
    ensures Match(IssueMatcher, url) == Ok(true)
  {
    var parts := UrlPathParts(url);
    var n := |parts|;
    ValuesToMatchWithoutCollision([(-2, "issues")], n);
    assert ValuesToMatch([(-2, "issues")], n) == [(n - 2, "issues")];
    assert RuleHolds(parts, (n - 2, "issues"));
    assert Match(IssueMatcher.matchers[1], url) == Ok(true);
    CompoundOfTwo(HostMatcher("github.com"), PathPartsMatcher([(-2, "issues")]), url, true, true);
  }

  /** A blob URL is not an issue URL: its segment -2 is `main`, not `issues`. */
  lemma BlobUrlIsNotAnIssue(url: Url)
    requires url == BlobUrl
    ensures ExtractUrlData(IssueDataExtractor, url) == Err(NonMatchingUrl)
  {
    BlobUrlSegments(url);
    ValuesToMatchWithoutCollision([(-2, "issues")], 5);
    assert Match(IssueMatcher, url) == Ok(false);
  }

  /** A URL on another host with an empty path is rejected by the matcher,
      before the extractors, which would fail on its empty path. */
  lemma OtherHostIsNotAnIssue(url: Url)
    requires url == NoPathUrl
    ensures ExtractUrlData(IssueDataExtractor, url) == Err(NonMatchingUrl)
    ensures ExtractElement(PathPartDataExtractor(0), url) == Err(DataElementNotFound)
  {
    assert UrlPathParts(url) == [] by {
      EmptyPathHasNoSegments();
    }
    assert Match(IssueMatcher, url) == Ok(false);
  }

  /** The blob matcher accepts the blob URL. */
  lemma BlobMatcherAcceptsBlobUrl(url: Url)
    requires url == BlobUrl
    ensures Match(BlobMatcher, url) == Ok(true)
  {
    BlobUrlSegments(url);
    SingleRuleInRange(2, "blob", url);
    CompoundOfTwo(HostMatcher("github.com"), PathPartsMatcher([(2, "blob")]), url, true, true);
  }

  /** The blob matcher rejects the issue URL: its segment 2 is `issues`. */
  lemma BlobMatcherRejectsIssueUrl(url: Url)
    requires url == IssueUrl
    ensures Match(BlobMatcher, url) == Ok(false)
  {
    IssueUrlSegments(url);
    SingleRuleInRange(2, "blob", url);
    assert UrlPathParts(url)[2] != "blob";
    CompoundOfTwo(HostMatcher("github.com"), PathPartsMatcher([(2, "blob")]), url, true, false);
  }
}
