# url_data_extractor, modelled in Dafny

`url_data_extractor` pulls named pieces of data out of parsed URLs. A
*URL data extractor* pairs one *URL matcher* with a dict of named *element
extractors*. `extract_url_data` first asks the matcher whether the URL is
one it handles. If the matcher says no, the call raises `NonMatchingURLException`.
If it says yes, the call runs every element extractor and returns a dict from
element name to extracted string. The matchers are:

- a host matcher, which compares the URL's hostname with a string;
- a path-parts matcher, which asks for given values at given segment indices, where negative indices count from the end;
- a compound matcher, which is the conjunction of other matchers.

The one element extractor reads the path segment at a possibly negative
index. The compound matcher, the path-parts matcher and the URL data
extractor each have a builder whose `build` raises
`InvalidBuilderStateException` when the builder is incomplete. The host
matcher and the path-part extractor are constructed directly. All five are
plain dataclasses, so even the built kinds can be constructed without their
builder, for example an empty compound matcher; the model allows that too. Path segments
are the pieces of the path split on `/`, with the empty ones dropped.

The model is functional:

- matchers, extractors and builders are immutable datatypes;
- every builder step returns a new builder;
- every raised exception becomes the `Err` case of a `Result`.

Modules, in dependency order:

| file | module | contents |
|---|---|---|
| outcomes.dfy | `Outcomes` | `Option`, `Result` and the library's error kinds, plus Python's `IndexError` |
| pydict.dfy | `PyDict` | Python's insertion-ordered dict: lookup, assignment, a run of assignments |
| builtins.dfy | `Builtins` | Python list indexing, `str.split` and `str.join` |
| url_utils.dfy | `UrlUtils` | `url_path_parts` |
| matchers.dfy | `Matchers` | the three matchers and their two builders |
| data_extractors.dfy | `DataExtractors` | the path-part extractor, the URL data extractor and its builder |
| scenarios.dfy | `Scenarios` | the example driver's issue and blob configurations on its example URLs |

### Matching can raise

`URLMatcher.match_url` is declared to return `bool` (matchers.py:9), yet
`PathPartsMatcher.match_url` can raise `IndexError` at `parts[index]`
(matchers.py:64). `get_values_to_match_dict` resolves a negative index only once. The bounds
check in `match_url` only rejects indices at or past the segment count. So a
rule whose index is still negative after resolution reaches Python's `parts[index]`:

- between minus twice the count and minus the count, Python wraps it a second time and compares that segment;
- below minus twice the count, Python raises `IndexError`.

The model follows the code:

- `Match` can return `Err(IndexError)`;
- a compound matcher propagates such an error even when another sub-matcher already said no, because `all([...])` builds the whole list first.

`PathPartDataExtractor` behaves the same way. Its bounds check also only
looks upward, so an index below minus the segment count either wraps twice
or raises `IndexError`, never `DataElementNotFoundException`.

## Model

| member | source | states |
|---|---|---|
| PyDict.Get | src/url_data_extractor/matchers.py:75 | lookup finds a value exactly when the key is one of the dict's keys |
| PyDict.GetFinds | src/url_data_extractor/matchers.py:84 | a found value is stored under its key at some position; with distinct keys, the lookup returns the value at the key's position |
| PyDict.Set | src/url_data_extractor/matchers.py:84 | `d[k] = v` makes `k` map to `v`, leaves every other key's value alone, adds `k` to the keys, and keeps length and key order when `k` was already present |
| PyDict.SetKeepsKeysDistinct | src/url_data_extractor/data_extractors.py:44 | assignment never creates a duplicate key |
| PyDict.UpdateAllSpec | src/url_data_extractor/matchers.py:72-75 | a run of assignments leaves the old keys plus the assigned ones, gives each assigned key the value of its last assignment, keeps unassigned keys, and keeps keys distinct |
| PyDict.UpdateAllAppends | src/url_data_extractor/matchers.py:72-75 | assigning fresh, distinct keys appends them in assignment order |
| Builtins.PyIndex | src/url_data_extractor/matchers.py:64 | Python list indexing succeeds exactly for indices in [-len, len), returns `s[i]`, or `s[len+i]` for a negative `i`, and otherwise raises IndexError |
| Builtins.NegativeIndexCountsFromEnd | src/url_data_extractor/data_extractors.py:76 | an in-range negative index reads the same element as the non-negative index it counts back to, so `-1-k` is the k-th element from the end; one more length below, indexing raises |
| Builtins.Split | src/url_data_extractor/_url_utils.py:5 | splitting gives at least one piece, and no piece contains the separator |
| Builtins.SplitJoin | src/url_data_extractor/_url_utils.py:5 | splitting is a left inverse of joining for a non-empty list of separator-free pieces |
| Builtins.JoinSplit | src/url_data_extractor/_url_utils.py:5 | joining is a left inverse of splitting: every string is recovered from its pieces |
| UrlUtils.DropEmpty | src/url_data_extractor/_url_utils.py:5 | a string is among the kept pieces exactly when it is a non-empty piece, and the filter never lengthens the list |
| UrlUtils.DropEmptyCounts | src/url_data_extractor/_url_utils.py:5 | each non-empty piece is kept as often as it occurs, the empty string never is, and a single piece is kept exactly when it is non-empty |
| UrlUtils.DropEmptyConcat | src/url_data_extractor/_url_utils.py:5 | filtering distributes over concatenation, so the kept pieces keep their relative order; with DropEmptyCounts this determines the filter |
| UrlUtils.PathSegments | src/url_data_extractor/_url_utils.py:5 | every segment of a path string is non-empty and free of `/` |
| UrlUtils.UrlPathParts | src/url_data_extractor/_url_utils.py:4-5 | every path part is non-empty and free of `/` |
| UrlUtils.SegmentsAtSlash | src/url_data_extractor/_url_utils.py:4-5 | the parts of `a/b` are the parts of `a` followed by the parts of `b` |
| UrlUtils.EmptyPathHasNoSegments | src/url_data_extractor/_url_utils.py:4-5 | the empty path has no parts |
| UrlUtils.OnlySlashesHaveNoSegments | src/url_data_extractor/_url_utils.py:4-5 | a path made only of slashes has no parts |
| UrlUtils.SlashesCollapse | src/url_data_extractor/_url_utils.py:4-5 | leading, trailing and doubled slashes do not change the parts |
| UrlUtils.SegmentsRoundTrip | src/url_data_extractor/_url_utils.py:4-5 | segments joined with `/` split back into the same segments |
| UrlUtils.NormalizedPathKeepsSegments | src/url_data_extractor/_url_utils.py:4-5 | rewriting a path as its parts joined by single slashes keeps its parts |
| UrlUtils.SingleSegment | src/url_data_extractor/_url_utils.py:4-5 | a slash-free non-empty path is its own only part |
| UrlUtils.LeadingSegment | src/url_data_extractor/_url_utils.py:4-5 | a segment followed by a slash is the first part, followed by the rest's parts |
| Matchers.Resolve | src/url_data_extractor/matchers.py:73-74 | a non-negative index is kept and a negative index `-k` becomes `count - k`, once; so an index lands inside the segments exactly when it lies in [-count, count), and a too-negative one stays below zero |
| Matchers.ValuesToMatch | src/url_data_extractor/matchers.py:69-77 | the resolved dict holds each resolved position exactly once, and no other key |
| Matchers.LaterRuleWins | src/url_data_extractor/matchers.py:72-75 | when rules resolve to the same position, the resolved dict holds the last such rule's value there |
| Matchers.ValuesToMatchWithoutCollision | src/url_data_extractor/matchers.py:69-77 | without collisions, resolution keeps every rule in its original order |
| Matchers.CollidingRulesLaterWins | src/url_data_extractor/matchers.py:72-75 | a rule at -k and a rule at count-k collapse into one entry carrying the later rule's value, in either order |
| Matchers.CheckRules | src/url_data_extractor/matchers.py:60-67 | the loop accepts exactly when every resolved rule is in range and matches; it raises IndexError exactly when the first rule that does not hold is below minus the count |
| Matchers.Match | src/url_data_extractor/matchers.py:16-67 | an empty compound rejects; a host matcher never raises and accepts exactly on an equal hostname; a path-parts matcher rejects a URL without parts; the only possible error is IndexError |
| Matchers.MatchAll | src/url_data_extractor/matchers.py:20 | the conjunction holds exactly when every sub-matcher accepts, and raises exactly when some sub-matcher raises |
| Matchers.CompoundIsConjunction | src/url_data_extractor/matchers.py:16-20 | a compound matcher accepts exactly when it is non-empty and all sub-matchers accept, and raises exactly when one of them raises |
| Matchers.CompoundOfTwo | src/url_data_extractor/matchers.py:16-20 | a compound of two answering matchers answers with the conjunction of their answers |
| Matchers.LastRuleAt | src/url_data_extractor/matchers.py:72-75 | every rule has a last rule resolving to the same position |
| Matchers.ResolvedDictHoldsEffectiveRules | src/url_data_extractor/matchers.py:69-77 | every entry of the resolved dict comes from the last rule for its position |
| Matchers.EffectiveRuleInResolvedDict | src/url_data_extractor/matchers.py:69-77 | the last rule for each position appears in the resolved dict |
| Matchers.CheckRulesInRange | src/url_data_extractor/matchers.py:60-67 | with every position inside the path, the loop never raises and accepts exactly when every segment equals its value |
| Matchers.RulesInRange | src/url_data_extractor/matchers.py:51-77 | when all rules resolve inside the path, the matcher accepts exactly when each surviving rule's value is the segment at its resolved position |
| Matchers.RuleOutOfRangeRejects | src/url_data_extractor/matchers.py:60-62 | when nothing can raise, one rule resolving at or past the segment count makes the matcher reject |
| Matchers.NegativeIndexResolution | src/url_data_extractor/matchers.py:73-74 | a rule at a negative index -k behaves like a rule at count-k |
| Matchers.SingleRuleInRange | src/url_data_extractor/matchers.py:60-67 | a single in-range rule compares exactly the segment at its index |
| Matchers.StillNegativeIndex | src/url_data_extractor/matchers.py:64 | a rule still negative after resolution compares the twice-wrapped segment, or raises IndexError below minus twice the count |
| Matchers.ResolvingTwiceChangesNothing | src/url_data_extractor/matchers.py:69-77 | when no rule stays negative, matching with the resolved rules gives the same answer as matching with the rules, so resolution is idempotent |
| Matchers.WithMatcher | src/url_data_extractor/matchers.py:26-28 | the added matcher goes last, after the earlier ones unchanged, and the builder can then be built |
| Matchers.BuildCompound | src/url_data_extractor/matchers.py:30-36 | building fails with InvalidBuilderState exactly when no matcher was added, and otherwise yields a compound of the added matchers |
| Matchers.CompoundBuilderChain | src/url_data_extractor/matchers.py:22-36 | a chain of `with_matcher` calls keeps the matchers in the order added, and building it fails exactly when the chain is empty |
| Matchers.BuiltCompoundIsConjunction | src/url_data_extractor/matchers.py:16-36 | a compound matcher that was built accepts exactly when all of its sub-matchers accept |
| Matchers.BuildPathParts | src/url_data_extractor/matchers.py:87-93 | building fails with InvalidBuilderState exactly when no rule was added, and otherwise yields the rules unchanged |
| Matchers.WithValueAtIndex | src/url_data_extractor/matchers.py:83-85 | the index now expects the value, every other index keeps its rule, indices stay distinct, and the builder can then be built |
| Matchers.ReAddingIndexOverwrites | src/url_data_extractor/matchers.py:83-85 | adding an index twice is the same as adding it only with the later value |
| Matchers.PathPartsBuilderChain | src/url_data_extractor/matchers.py:79-93 | a chain of `with_value_at_index` calls builds exactly when it is non-empty, holding each index once with its last value |
| Matchers.ChainIsUpdateAll | src/url_data_extractor/matchers.py:83-85 | a chain of `with_value_at_index` calls is the dict assignments made in order |
| DataExtractors.ExtractElement | src/url_data_extractor/data_extractors.py:65-76 | in-range indices, counted from either end, give that segment; an index at or past the count is DataElementNotFound; a too-negative index wraps twice or raises IndexError |
| DataExtractors.ExtractAll | src/url_data_extractor/data_extractors.py:27-30 | the comprehension succeeds exactly when every extractor does, keeps the names in order with their values, and otherwise fails with the first extractor error |
| DataExtractors.ExtractUrlData | src/url_data_extractor/data_extractors.py:23-30 | a rejected URL gives NonMatchingUrl and a raising matcher gives IndexError; success happens exactly when the matcher accepts and every extractor succeeds, and then gives each registered name, once, its extractor's value |
| DataExtractors.SameNames | src/url_data_extractor/data_extractors.py:27-30 | the result dict has the same names as the extractor dict, and they stay distinct |
| DataExtractors.NewBuilder | src/url_data_extractor/data_extractors.py:33-35 | a fresh builder has no extractors and cannot be built |
| DataExtractors.WithUrlMatcher | src/url_data_extractor/data_extractors.py:37-39 | the matcher is set and the extractors untouched, so the builder can be built exactly when an extractor is registered |
| DataExtractors.WithDataElementExtractor | src/url_data_extractor/data_extractors.py:41-45 | the name is registered and the matcher untouched, so the builder can be built exactly when a matcher is set |
| DataExtractors.RegisteringReplaces | src/url_data_extractor/data_extractors.py:41-45 | registering a name stores its extractor, replaces an earlier one in place, leaves other names and the matcher alone, and keeps names distinct |
| DataExtractors.Build | src/url_data_extractor/data_extractors.py:47-58 | building fails with InvalidBuilderState exactly when the matcher or every extractor is missing, and otherwise passes both through |
| DataExtractors.RegistrationChain | src/url_data_extractor/data_extractors.py:37-45 | a chain of registrations keeps the matcher and performs the dict assignments in order |
| DataExtractors.BuilderChain | src/url_data_extractor/data_extractors.py:32-58 | with a matcher set, building fails exactly when no extractor was registered; the built extractor keeps the matcher and holds each registered name once |
| DataExtractors.BuildWithoutMatcherFails | src/url_data_extractor/data_extractors.py:48-51 | without a matcher, building always fails |
| Scenarios.MatchersAreBuilt | extractor-test.py:14-17 | the driver's matcher builder chains produce the expected compound matchers |
| Scenarios.IssueExtractorIsBuilt | extractor-test.py:11-23 | the driver's issue builder chain yields the extractor for org, repo and issue |
| Scenarios.IssueUrlSegments | extractor-test.py:41 | the issue URL has the four parts `PluMGMK`, `vbesvga.drv`, `issues`, `113` |
| Scenarios.BlobUrlSegments | extractor-test.py:42 | the blob URL has the five parts `hynek`, `hello-svc-part-2`, `blob`, `main`, `pyproject.toml` |
| Scenarios.FourSegments | extractor-test.py:41 | a path of four slash-separated segments has those four parts |
| Scenarios.FiveSegments | extractor-test.py:42 | a path of five slash-separated segments has those five parts |
| Scenarios.IssueMatcherAccepts | extractor-test.py:14-17 | the issue matcher accepts any github.com URL whose second-to-last part is `issues` |
| Scenarios.IssueExtractorsSucceed | extractor-test.py:19-21 | on the issue URL's parts, the three extractors give org, repo and issue number in order |
| Scenarios.IssueUrlExtracts | extractor-test.py:11-23 | the issue URL yields org `PluMGMK`, repo `vbesvga.drv` and issue `113` |
| Scenarios.BlobUrlIsNotAnIssue | extractor-test.py:11-23 | the issue extractor rejects the blob URL as non-matching |
| Scenarios.OtherHostIsNotAnIssue | extractor-test.py:11-23 | the issue extractor rejects a youtube.com URL with no path before any extractor runs, although segment 0 would be missing |
| Scenarios.BlobMatcherAcceptsBlobUrl | extractor-test.py:27-32 | the blob matcher accepts the blob URL |
| Scenarios.BlobMatcherRejectsIssueUrl | extractor-test.py:27-32 | the blob matcher rejects the issue URL, whose third part is `issues` |

## Left out

- URL parsing (`urllib.parse.urlparse`) is left out. A URL is modelled only by its hostname, which may be absent, and its path string.
- The `URLMatcher` and `URLDataElementExtractor` protocols are modelled as closed datatypes with the kinds the library defines. User-defined matchers and extractors are not modelled.
- The example driver imports `PathSliceDataExtractor` (extractor-test.py:2-6) and calls `HostMatcher.hostname_equals_matcher` (extractor-test.py:15). This revision defines neither: `data_extractors.py` has only `PathPartDataExtractor`, and `HostMatcher` (matchers.py:39-44) has no such factory. So the driver does not run against this revision. The scenarios use `HostMatcher("github.com")` in place of the factory, and model the blob configuration only through its matcher.
- Exception messages are not modelled, and neither is the `exceptions` module. Each exception is modelled as its kind in `Outcomes.Error`.
- Builders are modelled as values. In Python they are mutable, and `build` hands the builder's own list or dict to the product, so later builder calls would change an already built object. That aliasing is not modelled.
- The driver's printing loop is not modelled. Neither is the fact that it runs the blob extractor on every URL.
- DataExtractors.ExtractUrlData: requires distinct element names, which every Python dict has; the builder chain guarantees it (DataExtractors.BuilderChain).
- Python's `str` is modelled as a sequence of characters. `split("/")` is modelled for the one-character separator it is called with.
