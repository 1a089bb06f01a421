/** Element extractors and the URL data extractor that runs them after its
    matcher accepts, together with its builder. */
module DataExtractors {
  import opened Outcomes
  import opened Builtins
  import opened UrlUtils
  import opened Matchers
  import PyDict

  /** The element extractor kinds: only one, reading a path segment at a
      possibly negative index. */
  datatype ElementExtractor = PathPartDataExtractor(pathIndex: int)

  /** `PathPartDataExtractor.extract_data_element`. The bounds check only
      looks above: a negative index that is still negative once resolved goes
      to Python indexing, which wraps it once more or raises IndexError. */
  function ExtractElement(e: ElementExtractor, url: Url): (r: Result<string>)
    ensures 0 <= e.pathIndex < |UrlPathParts(url)| ==> r == Ok(UrlPathParts(url)[e.pathIndex])
    ensures e.pathIndex >= |UrlPathParts(url)| ==> r == Err(DataElementNotFound)
    ensures -|UrlPathParts(url)| <= e.pathIndex < 0 ==> r == Ok(UrlPathParts(url)[|UrlPathParts(url)| + e.pathIndex])
    ensures (-2 * |UrlPathParts(url)| <= e.pathIndex < -|UrlPathParts(url)|)
              ==> r == Ok(UrlPathParts(url)[2 * |UrlPathParts(url)| + e.pathIndex])
    ensures e.pathIndex < -2 * |UrlPathParts(url)| ==> r == Err(IndexError)
  {
    var parts := UrlPathParts(url);
    var index := Resolve(e.pathIndex, |parts|);
    if index >= |parts| then Err(DataElementNotFound)
    else PyIndex(parts, index)
  }

  /** The dict comprehension over the named extractors, in order; the first
      extractor that raises aborts it. */
  function ExtractAll(extractors: PyDict.Dict<string, ElementExtractor>, url: Url): (r: Result<PyDict.Dict<string, string>>)
    ensures r.Ok? <==> forall k :: 0 <= k < |extractors| ==> ExtractElement(extractors[k].1, url).Ok?
    ensures r.Ok? ==> |r.value| == |extractors|
    ensures r.Ok? ==> forall k :: 0 <= k < |extractors| ==>
              r.value[k] == (extractors[k].0, ExtractElement(extractors[k].1, url).value)
    ensures r.Err? ==> exists k :: 0 <= k < |extractors| && ExtractElement(extractors[k].1, url) == Err(r.error)
                                   && forall j :: 0 <= j < k ==> ExtractElement(extractors[j].1, url).Ok?
  {
    if |extractors| == 0 then Ok([])
    else
      var (name, extractor) := extractors[0];
      var rest := ExtractAll(extractors[1..], url);
      assert forall k :: 0 < k < |extractors| ==> extractors[k] == extractors[1..][k - 1];
      match ExtractElement(extractor, url)
      case Err(e) => Err(e)
      case Ok(value) =>
        match rest
        case Err(e) => Err(e)
        case Ok(values) => Ok([(name, value)] + values)
  }

  /** A built `URLDataExtractor`: one matcher and the named element extractors. */
  datatype UrlDataExtractor = UrlDataExtractor(urlMatcher: Matcher, elementExtractors: PyDict.Dict<string, ElementExtractor>)

  /** `extract_url_data`. The matcher runs first: a rejected URL raises
      NonMatchingUrl whatever the extractors would do. On a match the result
      holds every registered name, each with its extractor's value, or the
      call raises the first extractor failure and returns nothing. */
  function ExtractUrlData(x: UrlDataExtractor, url: Url): (r: Result<PyDict.Dict<string, string>>)
    requires PyDict.DistinctKeys(x.elementExtractors)
    ensures Match(x.urlMatcher, url) == Ok(false) ==> r == Err(NonMatchingUrl)
    ensures Match(x.urlMatcher, url).Err? ==> r == Err(IndexError)
    ensures r.Ok? <==> Match(x.urlMatcher, url) == Ok(true)
                        && forall k :: 0 <= k < |x.elementExtractors| ==> ExtractElement(x.elementExtractors[k].1, url).Ok?
    ensures r.Ok? ==> PyDict.DistinctKeys(r.value) && PyDict.KeySet(r.value) == PyDict.KeySet(x.elementExtractors)
    ensures r.Ok? ==> forall k :: 0 <= k < |x.elementExtractors| ==>
              PyDict.Get(r.value, x.elementExtractors[k].0) == Some(ExtractElement(x.elementExtractors[k].1, url).value)
    ensures Match(x.urlMatcher, url) == Ok(true) && r.Err? ==>
              exists k :: 0 <= k < |x.elementExtractors| && ExtractElement(x.elementExtractors[k].1, url) == Err(r.error)
  {
    match Match(x.urlMatcher, url)
    case Err(e) => Err(e)
    case Ok(matched) =>
      if !matched then Err(NonMatchingUrl)
      else
        var r := ExtractAll(x.elementExtractors, url);
        if r.Ok? then
          SameNames(x.elementExtractors, r.value);
          PyDict.DistinctLookup(r.value);
          r
        else r
  }

  /** Pairing the same names, in the same order, with other values keeps the
      key set and the distinctness of the names. */
  lemma SameNames<V, W>(a: PyDict.Dict<string, V>, b: PyDict.Dict<string, W>)
    requires |a| == |b| && forall k :: 0 <= k < |a| ==> a[k].0 == b[k].0
    ensures PyDict.KeySet(a) == PyDict.KeySet(b)
    ensures PyDict.DistinctKeys(a) ==> PyDict.DistinctKeys(b)
  {
    forall x | x in PyDict.KeySet(a)
      ensures x in PyDict.KeySet(b)
    {
      var k :| 0 <= k < |a| && a[k].0 == x;
      assert b[k].0 == x;
    }
    forall x | x in PyDict.KeySet(b)
      ensures x in PyDict.KeySet(a)
    {
      var k :| 0 <= k < |b| && b[k].0 == x;
      assert a[k].0 == x;
    }
  }

  /** `URLDataExtractor.Builder`: the matcher, if set, and the named extractors so far. */
  datatype UrlDataExtractorBuilder = UrlDataExtractorBuilder(
    urlMatcher: Option<Matcher>,
    elementExtractors: PyDict.Dict<string, ElementExtractor>)

  /** A fresh builder: no matcher, no extractors, so it cannot be built yet. */
  function NewBuilder(): (b: UrlDataExtractorBuilder)
    ensures Build(b) == Err(InvalidBuilderState)
    ensures PyDict.KeySet(b.elementExtractors) == {}
  {
    UrlDataExtractorBuilder(None, [])
  }

  /** `with_url_matcher`: set, or replace, the matcher. The extractors are
      untouched, so the builder can be built exactly when one is registered. */
  function WithUrlMatcher(b: UrlDataExtractorBuilder, m: Matcher): (r: UrlDataExtractorBuilder)
    ensures r.urlMatcher == Some(m) && r.elementExtractors == b.elementExtractors
    ensures Build(r).Ok? <==> |b.elementExtractors| > 0
  {
    b.(urlMatcher := Some(m))
  }

  /** `with_data_element_extractor`: register, or replace, a named extractor.
      The matcher is untouched, so the builder can be built exactly when it
      has one. What happens to the names is stated by `RegisteringReplaces`. */
  function WithDataElementExtractor(b: UrlDataExtractorBuilder, name: string, e: ElementExtractor): (r: UrlDataExtractorBuilder)
    ensures r.urlMatcher == b.urlMatcher
    ensures name in PyDict.KeySet(r.elementExtractors)
    ensures Build(r).Ok? <==> b.urlMatcher.Some?
  {
    b.(elementExtractors := PyDict.Set(b.elementExtractors, name, e))
  }

  /** Registering a name stores its extractor, replaces an earlier extractor
      of the same name in place, leaves the other names alone and keeps the
      names distinct. */
  lemma RegisteringReplaces(b: UrlDataExtractorBuilder, name: string, e: ElementExtractor)
    requires PyDict.DistinctKeys(b.elementExtractors)
    ensures WithDataElementExtractor(b, name, e).urlMatcher == b.urlMatcher
    ensures PyDict.Get(WithDataElementExtractor(b, name, e).elementExtractors, name) == Some(e)
    ensures forall other :: other != name ==>
              PyDict.Get(WithDataElementExtractor(b, name, e).elementExtractors, other) == PyDict.Get(b.elementExtractors, other)
    ensures PyDict.KeySet(WithDataElementExtractor(b, name, e).elementExtractors) == PyDict.KeySet(b.elementExtractors) + {name}
    ensures name in PyDict.KeySet(b.elementExtractors) ==>
              |WithDataElementExtractor(b, name, e).elementExtractors| == |b.elementExtractors|
    ensures PyDict.DistinctKeys(WithDataElementExtractor(b, name, e).elementExtractors)
  {
    PyDict.SetKeepsKeysDistinct(b.elementExtractors, name, e);
  }

  /** `URLDataExtractor.Builder.build`: fails without a matcher or without any
      extractor, and otherwise hands both over unchanged. */
  function Build(b: UrlDataExtractorBuilder): (r: Result<UrlDataExtractor>)
    ensures r.Err? <==> b.urlMatcher.None? || |b.elementExtractors| == 0
    ensures r.Err? ==> r.error == InvalidBuilderState
    ensures r.Ok? ==> r.value.urlMatcher == b.urlMatcher.value && r.value.elementExtractors == b.elementExtractors
  {
    if b.urlMatcher.None? then Err(InvalidBuilderState)
    else if |b.elementExtractors| == 0 then Err(InvalidBuilderState)
    else Ok(UrlDataExtractor(b.urlMatcher.value, b.elementExtractors))
  }

  /** A chain of `with_data_element_extractor` calls, one per element of `calls`, in order. */
  function WithDataElementExtractors(b: UrlDataExtractorBuilder, calls: seq<(string, ElementExtractor)>): UrlDataExtractorBuilder
    decreases |calls|
  {
    if |calls| == 0 then b
    else
      var n := |calls| - 1;
      WithDataElementExtractor(WithDataElementExtractors(b, calls[..n]), calls[n].0, calls[n].1)
  }

  /** A chain of registrations performs the dict assignments in order. */
  lemma {:induction false} RegistrationChain(b: UrlDataExtractorBuilder, calls: seq<(string, ElementExtractor)>)
    ensures WithDataElementExtractors(b, calls).urlMatcher == b.urlMatcher
    ensures WithDataElementExtractors(b, calls).elementExtractors == PyDict.UpdateAll(b.elementExtractors, calls)
    decreases |calls|
  {
    if |calls| > 0 {
      RegistrationChain(b, calls[..|calls| - 1]);
    }
  }

  /** Building after setting a matcher and registering extractors on a fresh
      builder fails exactly when no extractor was registered, and the
      extractor it builds can always be run: its names are distinct. */
  lemma BuilderChain(m: Matcher, calls: seq<(string, ElementExtractor)>)
    ensures var r := Build(WithDataElementExtractors(WithUrlMatcher(NewBuilder(), m), calls));
            && (r.Err? <==> |calls| == 0)
            && (r.Ok? ==>
                  && r.value.urlMatcher == m
                  && PyDict.DistinctKeys(r.value.elementExtractors)
                  && PyDict.KeySet(r.value.elementExtractors) == PyDict.KeySet(calls))
  {
    var b := WithUrlMatcher(NewBuilder(), m);
    var b' := WithDataElementExtractors(b, calls);
    RegistrationChain(b, calls);
    PyDict.UpdateAllSpec(b.elementExtractors, calls);
    assert b'.urlMatcher == Some(m);
    assert PyDict.KeySet(b'.elementExtractors) == PyDict.KeySet(calls) by {
      assert PyDict.KeySet(b.elementExtractors) == {};
    }
    assert |b'.elementExtractors| == 0 <==> |calls| == 0 by {
      if |calls| > 0 {
        assert calls[0].0 in PyDict.KeySet(calls);
      } else {
        assert b' == b;
      }
    }
  }

  /** Without a matcher, building fails whatever was registered. */
  lemma BuildWithoutMatcherFails(calls: seq<(string, ElementExtractor)>)
    ensures Build(WithDataElementExtractors(NewBuilder(), calls)) == Err(InvalidBuilderState)
  {
    RegistrationChain(NewBuilder(), calls);
  }
}
