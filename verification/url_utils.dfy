/** The parsed-URL view and its path segments. */
module UrlUtils {
  import opened Outcomes
  import opened Builtins

  /** The two fields of an already-parsed URL that the library reads: the
      hostname, which may be absent, and the path. */
  datatype Url = Url(hostname: Option<string>, path: string)

  /** A path segment: non-empty and free of slashes. */
  predicate IsSegment(s: string) {
    |s| > 0 && '/' !in s
  }

  /** The pieces that are not the empty string, in their original order. */
  function DropEmpty(pieces: seq<string>): (kept: seq<string>)
    ensures forall x :: x in kept <==> x in pieces && x != ""
    ensures |kept| <= |pieces|
  {
    if |pieces| == 0 then []
    else if pieces[0] == "" then DropEmpty(pieces[1..])
    else [pieces[0]] + DropEmpty(pieces[1..])
  }

  /** The path split on `/` with the empty pieces dropped. */
  function PathSegments(path: string): (parts: seq<string>)
    ensures forall k :: 0 <= k < |parts| ==> IsSegment(parts[k])
  {
    var pieces := Split(path, '/');
    var parts := DropEmpty(pieces);
    assert forall k :: 0 <= k < |parts| ==> parts[k] in pieces;
    parts
  }

  /** `url_path_parts`: the segments of the URL's path. */
  function UrlPathParts(url: Url): (parts: seq<string>)
    ensures forall k :: 0 <= k < |parts| ==> IsSegment(parts[k])
  {
    PathSegments(url.path)
  }

  /** Every non-empty piece is kept as often as it occurs and the empty
      string never is. With `DropEmptyConcat`, which keeps the order, this
      determines the filter: on a single piece it leaves exactly that piece,
      or nothing when the piece is empty. */
  lemma {:induction false} DropEmptyCounts(pieces: seq<string>)
    ensures forall x :: x != "" ==> multiset(DropEmpty(pieces))[x] == multiset(pieces)[x]
    ensures multiset(DropEmpty(pieces))[""] == 0
    ensures forall x :: DropEmpty([x]) == if x == "" then [] else [x]
  {
    if |pieces| > 0 {
      DropEmptyCounts(pieces[1..]);
      assert pieces == [pieces[0]] + pieces[1..];
    }
    forall x
      ensures DropEmpty([x]) == if x == "" then [] else [x]
    {
      assert [x][1..] == [];
    }
  }

  /** Filtering distributes over concatenation, so the kept pieces stay in
      their original relative order. */
  lemma {:induction false} DropEmptyConcat(a: seq<string>, b: seq<string>)
    ensures DropEmpty(a + b) == DropEmpty(a) + DropEmpty(b)
  {
    if |a| > 0 {
      assert (a + b)[1..] == a[1..] + b;
      DropEmptyConcat(a[1..], b);
    } else {
      assert a + b == b;
    }
  }

  /** Pieces that are all non-empty are kept unchanged. */
  lemma {:induction false} DropEmptyKeepsNonEmpty(pieces: seq<string>)
    requires forall k :: 0 <= k < |pieces| ==> pieces[k] != ""
    ensures DropEmpty(pieces) == pieces
  {
    if |pieces| > 0 {
      DropEmptyKeepsNonEmpty(pieces[1..]);
    }
  }

  /** A slash separates the segments before it from those after it. */
  lemma SegmentsAtSlash(a: string, b: string)
    ensures PathSegments(a + "/" + b) == PathSegments(a) + PathSegments(b)
  {
    SplitAtSeparator(a, b, '/');
    DropEmptyConcat(Split(a, '/'), Split(b, '/'));
  }

  /** The empty path has no segments. */
  lemma EmptyPathHasNoSegments()
    ensures PathSegments("") == []
  {
  }

  /** A path made only of slashes (or empty) has no segments. */
  lemma {:induction false} OnlySlashesHaveNoSegments(path: string)
    requires forall k :: 0 <= k < |path| ==> path[k] == '/'
    ensures PathSegments(path) == []
  {
    if |path| > 0 {
      assert path == "" + "/" + path[1..];
      SegmentsAtSlash("", path[1..]);
      OnlySlashesHaveNoSegments(path[1..]);
    }
  }

  /** Leading, trailing and repeated slashes do not change the segments. */
  lemma SlashesCollapse(a: string, b: string)
    ensures PathSegments("/" + b) == PathSegments(b)
    ensures PathSegments(a + "/") == PathSegments(a)
    ensures PathSegments(a + "//" + b) == PathSegments(a + "/" + b)
  {
    assert "/" + b == "" + "/" + b;
    SegmentsAtSlash("", b);
    assert a + "/" == a + "/" + "";
    SegmentsAtSlash(a, "");
    assert a + "//" + b == a + "/" + ("/" + b);
    SegmentsAtSlash(a, "/" + b);
    SegmentsAtSlash(a, b);
  }

  /** Joining segments with `/` and splitting again gives the segments back. */
  lemma SegmentsRoundTrip(segments: seq<string>)
    requires forall k :: 0 <= k < |segments| ==> IsSegment(segments[k])
    ensures PathSegments(Join(segments, '/')) == segments
  {
    if |segments| > 0 {
      SplitJoin(segments, '/');
      DropEmptyKeepsNonEmpty(segments);
    }
  }

  /** Rewriting a path as its segments joined by single slashes keeps its segments. */
  lemma NormalizedPathKeepsSegments(path: string)
    ensures PathSegments(Join(PathSegments(path), '/')) == PathSegments(path)
  {
    SegmentsRoundTrip(PathSegments(path));
  }

  /** A single segment is its own only segment. */
  lemma SingleSegment(segment: string)
    requires IsSegment(segment)
    ensures PathSegments(segment) == [segment]
  {
    SplitWithoutSeparator(segment, '/');
  }

  /** A segment followed by a slash comes first, before the rest's segments. */
  lemma LeadingSegment(segment: string, rest: string)
    requires IsSegment(segment)
    ensures PathSegments(segment + "/" + rest) == [segment] + PathSegments(rest)
  {
    SegmentsAtSlash(segment, rest);
    SingleSegment(segment);
  }
}
