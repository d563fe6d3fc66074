/** The header's breadcrumb trail: "Home", then one crumb per non-empty segment of the
    current location, each linking to the path up to and including its segment, with
    only the last one marked active. */
module Breadcrumbs {
  import opened Text

  datatype Crumb = Crumb(title: string, path: string, isActive: bool)

  /** The first crumb of every trail (its `isActive` is left unset, which reads as false). */
  const Home: Crumb := Crumb("Home", "/", false)

  /** `filter(Boolean)` on strings: drops the empty ones, keeping order. */
  function NonEmpty(parts: seq<string>): (r: seq<string>)
    ensures |r| <= |parts|
    ensures forall k :: 0 <= k < |r| ==> r[k] != [] && r[k] in parts
    ensures forall x :: x in parts && x != [] ==> x in r
  {
    if parts == [] then []
    else (if parts[0] != [] then [parts[0]] else []) + NonEmpty(parts[1..])
  }

  lemma {:induction false} NonEmptyAppend(a: seq<string>, b: seq<string>)
    ensures NonEmpty(a + b) == NonEmpty(a) + NonEmpty(b)
  {
    if a == [] {
      assert a + b == b;
    } else {
      var head := if a[0] != [] then [a[0]] else [];
      assert (a + b)[0] == a[0];
      assert (a + b)[1..] == a[1..] + b;
      NonEmptyAppend(a[1..], b);
      assert NonEmpty(a + b) == head + (NonEmpty(a[1..]) + NonEmpty(b));
      assert head + (NonEmpty(a[1..]) + NonEmpty(b)) == (head + NonEmpty(a[1..])) + NonEmpty(b);
    }
  }

  /** `location.split('/').filter(Boolean)`. */
  function Segments(location: string): (segs: seq<string>)
    ensures forall k :: 0 <= k < |segs| ==> segs[k] != [] && '/' !in segs[k]
  {
    NonEmpty(Split(location, '/'))
  }

  /** `s.charAt(0).toUpperCase() + s.slice(1)`. */
  function Capitalize(s: string): (r: string)
    ensures |r| == |s|
    ensures s != [] ==> r[0] == UpperChar(s[0]) && r[1..] == s[1..]
  {
    if s == [] then [] else [UpperChar(s[0])] + s[1..]
  }

  /** The path built by appending "/" and each segment in turn. */
  function JoinPath(segs: seq<string>): (p: string)
    ensures |segs| > 0 ==> |p| > 0 && p[0] == '/'
  {
    if segs == [] then "" else JoinPath(segs[..|segs| - 1]) + "/" + segs[|segs| - 1]
  }

  /** The path up to segment `n` extends the path up to the segment before it. */
  lemma JoinPathStep(segs: seq<string>, n: nat)
    requires n < |segs|
    ensures JoinPath(segs[..n + 1]) == JoinPath(segs[..n]) + "/" + segs[n]
  {
    assert segs[..n + 1][..n] == segs[..n];
  }

  /** The crumb for segment `i`: its capitalized text, the path up to it, active when last. */
  function CrumbAt(segs: seq<string>, i: nat): Crumb
    requires i < |segs|
  {
    Crumb(Capitalize(segs[i]), JoinPath(segs[..i + 1]), i == |segs| - 1)
  }

  /** The trail for a location: "Home", then the crumb of each segment in order. */
  function TrailOf(location: string): (r: seq<Crumb>)
    ensures |r| == |Segments(location)| + 1 && r[0] == Home
    ensures forall i :: 1 <= i < |r| ==> r[i] == CrumbAt(Segments(location), i - 1)
  {
    var segs := Segments(location);
    [Home] + seq(|segs|, i requires 0 <= i < |segs| => CrumbAt(segs, i))
  }

  /** Only the last crumb of a trail with segments is active, and each crumb shows its
      segment capitalized. */
  lemma TrailShape(location: string)
    ensures var r := TrailOf(location);
            && (forall i :: 0 <= i < |r| ==> (r[i].isActive <==> i > 0 && i == |r| - 1))
            && (forall i :: 1 <= i < |r| ==> r[i].title == Capitalize(Segments(location)[i - 1]))
  {
    var r := TrailOf(location);
    forall i | 1 <= i < |r|
      ensures r[i].isActive <==> i == |r| - 1
      ensures r[i].title == Capitalize(Segments(location)[i - 1])
    {
      assert r[i] == CrumbAt(Segments(location), i - 1);
    }
  }

  /** The trail so far holds "Home" and the crumbs of the first `n` segments. */
  ghost predicate TrailUpTo(trail: seq<Crumb>, segs: seq<string>, n: nat)
    requires n <= |segs|
  {
    |trail| == n + 1 && trail[0] == Home
    && forall i :: 1 <= i <= n ==> trail[i] == CrumbAt(segs, i - 1)
  }

  lemma TrailUpToStep(trail: seq<Crumb>, segs: seq<string>, n: nat)
    requires n < |segs| && TrailUpTo(trail, segs, n)
    ensures TrailUpTo(trail + [CrumbAt(segs, n)], segs, n + 1)
  {
    var next := trail + [CrumbAt(segs, n)];
    forall i | 1 <= i <= n + 1
      ensures next[i] == CrumbAt(segs, i - 1)
    {
      if i <= n {
        assert next[i] == trail[i];
      }
    }
  }

  lemma TrailUpToAll(trail: seq<Crumb>, location: string)
    requires TrailUpTo(trail, Segments(location), |Segments(location)|)
    ensures trail == TrailOf(location)
  {
    var full := TrailOf(location);
    forall i | 0 <= i < |trail|
      ensures trail[i] == full[i]
    {
    }
  }

  /** `getBreadcrumbs()`. */
  method GetBreadcrumbs(location: string) returns (breadcrumbs: seq<Crumb>)
    ensures breadcrumbs == TrailOf(location)
  {
    var paths := Segments(location);
    breadcrumbs := [Home];
    if |paths| > 0 {
      var currentPath := "";
      var index := 0;
      while index < |paths|
        invariant 0 <= index <= |paths|
        invariant currentPath == JoinPath(paths[..index])
        invariant TrailUpTo(breadcrumbs, paths, index)
      {
        JoinPathStep(paths, index);
        TrailUpToStep(breadcrumbs, paths, index);
        currentPath := currentPath + "/" + paths[index];
        var isLast := index == |paths| - 1;
        breadcrumbs := breadcrumbs + [Crumb(Capitalize(paths[index]), currentPath, isLast)];
        index := index + 1;
      }
    }
    TrailUpToAll(breadcrumbs, location);
  }

  /** Each crumb's link extends the previous one by "/" and the next segment. */
  lemma CrumbPathsExtend(location: string, i: nat)
    requires i + 2 < |TrailOf(location)|
    ensures TrailOf(location)[i + 2].path == TrailOf(location)[i + 1].path + "/" + Segments(location)[i + 1]
  {
    var segs := Segments(location);
    var trail := TrailOf(location);
    assert trail[i + 2] == CrumbAt(segs, i + 1);
    assert trail[i + 1] == CrumbAt(segs, i);
    JoinPathStep(segs, i + 1);
  }

  /** Appending "/" and a clean segment to a location adds that segment to its list. */
  lemma SegmentsAppendLast(head: string, last: string)
    requires last != [] && '/' !in last
    ensures Segments(head + ['/'] + last) == Segments(head) + [last]
  {
    SplitAppend(head, last, '/');
    assert Split(last, '/') == [last];
    NonEmptyAppend(Split(head, '/'), [last]);
    assert NonEmpty([last]) == [last];
  }

  /** Splitting a joined path gives the segments back. */
  lemma {:induction false} SegmentsOfJoinPath(segs: seq<string>)
    requires forall k :: 0 <= k < |segs| ==> segs[k] != [] && '/' !in segs[k]
    ensures Segments(JoinPath(segs)) == segs
  {
    if segs == [] {
      assert Split("", '/') == [""];
    } else {
      var init, last := segs[..|segs| - 1], segs[|segs| - 1];
      SegmentsOfJoinPath(init);
      assert JoinPath(segs) == JoinPath(init) + ['/'] + last;
      SegmentsAppendLast(JoinPath(init), last);
      assert init + [last] == segs;
    }
  }

  /** The crumbs of a prefix of the segments agree with the full trail's, except that the
      last of them is active. */
  lemma PrefixCrumb(segs: seq<string>, i: nat, j: nat)
    requires 1 <= j <= i <= |segs|
    ensures CrumbAt(segs[..i], j - 1) == if j < i then CrumbAt(segs, j - 1) else CrumbAt(segs, j - 1).(isActive := true)
  {
    assert segs[..i][..j] == segs[..j];
  }

  /** Following the link of crumb `i` leads to a location whose trail is the first `i`
      crumbs unchanged followed by crumb `i`, now active. */
  lemma FollowCrumb(location: string, i: nat)
    requires 1 <= i < |TrailOf(location)|
    ensures var next := TrailOf(TrailOf(location)[i].path);
            && |next| == i + 1
            && next[..i] == TrailOf(location)[..i]
            && next[i] == TrailOf(location)[i].(isActive := true)
  {
    var segs := Segments(location);
    var trail := TrailOf(location);
    var prefix := segs[..i];
    assert trail[i].path == JoinPath(prefix);
    SegmentsOfJoinPath(prefix);
    var next := TrailOf(JoinPath(prefix));
    forall j | 1 <= j <= i
      ensures next[j] == if j < i then trail[j] else trail[i].(isActive := true)
    {
      PrefixCrumb(segs, i, j);
    }
    assert next[..i] == trail[..i];
  }
}
