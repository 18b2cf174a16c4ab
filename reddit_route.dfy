/** The community feed handler (`/api/reddit`): the hot listing of the
    subreddit is fetched, pinned posts are dropped, and the first five of the
    rest are returned with a link built from their permalink. */
module RedditRoute {
  import opened Wrappers
  import opened Http
  import opened Seqs

  /** What the handler returns, at most. */
  const PostLimit: nat := 5

  /** Every link starts with the site's address. */
  const SiteUrl: string := "https://www.reddit.com"

  /** The `data` of one child of the listing, reduced to the fields read. */
  datatype Child = Child(id: string, title: string, permalink: string, author: string,
                         score: int, createdUtc: int, stickied: bool)

  /** One post of the response. */
  datatype Post = Post(id: string, title: string, url: string, author: string, score: int, created: int)

  /** The outcome of the fetch: an answer with its status and, if its body is
      JSON holding `data.children`, those children; or a failure to reach the
      site at all. */
  datatype Upstream = Answered(status: int, children: Option<seq<Child>>) | Unreachable

  const FailureMessage: string := "Failed to load community insights"

  /** `res.ok`: a status in the 2xx range. */
  predicate IsOk(status: int)
  {
    200 <= status <= 299
  }

  /** The `map` step: the link is the site address followed by the permalink,
      every other field is copied. */
  function ToPost(c: Child): (p: Post)
    ensures p.url == SiteUrl + c.permalink
    ensures p.id == c.id && p.title == c.title && p.author == c.author
    ensures p.score == c.score && p.created == c.createdUtc
  {
    Post(c.id, c.title, SiteUrl + c.permalink, c.author, c.score, c.createdUtc)
  }

  /** The permalink behind a link, if the link is one of the site's. */
  function PermalinkOf(url: string): (r: Option<string>)
    ensures r.Some? ==> SiteUrl + r.value == url
  {
    if |SiteUrl| <= |url| && url[..|SiteUrl|] == SiteUrl then
      assert url == url[..|SiteUrl|] + url[|SiteUrl|..];
      Some(url[|SiteUrl|..])
    else None
  }

  /** A post's link gives back its child's permalink, so distinct permalinks
      give distinct links. */
  lemma LinkRoundTrip(c: Child)
    ensures PermalinkOf(ToPost(c).url) == Some(c.permalink)
  {
  }

  function NotStickied(c: Child): bool
  {
    !c.stickied
  }

  function MapToPosts(children: seq<Child>): (r: seq<Post>)
    ensures |r| == |children|
    ensures forall i :: 0 <= i < |r| ==> r[i] == ToPost(children[i])
  {
    seq(|children|, i requires 0 <= i < |children| => ToPost(children[i]))
  }

  /** `children.filter(c => !c.data.stickied).slice(0, 5).map(...)`: the first
      five children that are not pinned, in listing order, or all of them if
      there are fewer. */
  function ExtractPosts(children: seq<Child>): (r: seq<Post>)
    ensures var kept := Filter(children, NotStickied);
      && |r| == (if |kept| < PostLimit then |kept| else PostLimit)
      && forall i :: 0 <= i < |r| ==> r[i] == ToPost(kept[i])
  {
    MapToPosts(Take(Filter(children, NotStickied), PostLimit))
  }

  /** Every post comes from a child of the listing that is not pinned. */
  lemma NoStickiedPost(children: seq<Child>, i: nat)
    requires i < |ExtractPosts(children)|
    ensures exists c :: c in children && !c.stickied && ExtractPosts(children)[i] == ToPost(c)
  {
    var kept := Filter(children, NotStickied);
    assert kept[i] in children && NotStickied(kept[i]);
  }

  /** A pinned post anywhere in the listing changes nothing. */
  lemma StickiedIgnored(before: seq<Child>, c: Child, after: seq<Child>)
    requires c.stickied
    ensures ExtractPosts(before + [c] + after) == ExtractPosts(before + after)
  {
    FilterAppend(before + [c], after, NotStickied);
    FilterAppend(before, [c], NotStickied);
    FilterAppend(before, after, NotStickied);
    assert Filter([c], NotStickied) == [];
    assert Filter(before, NotStickied) + [] == Filter(before, NotStickied);
  }

  /** An independent reading of the chain: walk the listing once, skip pinned
      children, and emit posts until `budget` of them are out. */
  function Scan(children: seq<Child>, budget: nat): seq<Post>
  {
    if children == [] || budget == 0 then []
    else if children[0].stickied then Scan(children[1..], budget)
    else [ToPost(children[0])] + Scan(children[1..], budget - 1)
  }

  /** Filter, slice and map agree with the single walk for any budget. */
  lemma {:induction false} ScanAgrees(children: seq<Child>, budget: nat)
    ensures MapToPosts(Take(Filter(children, NotStickied), budget)) == Scan(children, budget)
    decreases |children|, 1
  {
    if children == [] || budget == 0 {
      ScanBase(children, budget);
    } else if children[0].stickied {
      SkipStep(children, budget);
    } else {
      KeepStep(children, budget);
    }
  }

  /** With no children left or no budget left both readings are empty. */
  lemma ScanBase(children: seq<Child>, budget: nat)
    requires children == [] || budget == 0
    ensures MapToPosts(Take(Filter(children, NotStickied), budget)) == Scan(children, budget)
  {
  }

  /** A pinned head is skipped by both readings. */
  lemma {:induction false} SkipStep(children: seq<Child>, budget: nat)
    requires children != [] && budget > 0 && children[0].stickied
    ensures MapToPosts(Take(Filter(children, NotStickied), budget)) == Scan(children, budget)
    decreases |children|, 0
  {
    ScanAgrees(children[1..], budget);
    FilterStep(children);
  }

  /** A head that is not pinned is the first post of both readings. */
  lemma {:induction false} KeepStep(children: seq<Child>, budget: nat)
    requires children != [] && budget > 0 && !children[0].stickied
    ensures MapToPosts(Take(Filter(children, NotStickied), budget)) == Scan(children, budget)
    decreases |children|, 0
  {
    var rest := Filter(children[1..], NotStickied);
    calc {
      MapToPosts(Take(Filter(children, NotStickied), budget));
      { FilterStep(children); }
      MapToPosts(Take([children[0]] + rest, budget));
      { EmitStep(children[0], rest, budget); }
      [ToPost(children[0])] + MapToPosts(Take(rest, budget - 1));
      { ScanAgrees(children[1..], budget - 1);
        PrependEqual(ToPost(children[0]), MapToPosts(Take(rest, budget - 1)), Scan(children[1..], budget - 1)); }
      [ToPost(children[0])] + Scan(children[1..], budget - 1);
    }
  }

  /** Equal tails under the same first post. */
  lemma PrependEqual(p: Post, x: seq<Post>, y: seq<Post>)
    requires x == y
    ensures [p] + x == [p] + y
  {
  }

  /** One step of the filter: the head is kept exactly when it is not pinned. */
  lemma FilterStep(children: seq<Child>)
    requires children != []
    ensures Filter(children, NotStickied) ==
      if children[0].stickied then Filter(children[1..], NotStickied)
      else [children[0]] + Filter(children[1..], NotStickied)
  {
  }

  /** One step of the slice and map: a kept head becomes the first post. */
  lemma EmitStep(c: Child, rest: seq<Child>, budget: nat)
    requires budget > 0
    ensures MapToPosts(Take([c] + rest, budget)) == [ToPost(c)] + MapToPosts(Take(rest, budget - 1))
  {
    assert Take([c] + rest, budget) == [c] + Take(rest, budget - 1);
  }

  lemma ExtractIsScan(children: seq<Child>)
    ensures ExtractPosts(children) == Scan(children, PostLimit)
  {
    ScanAgrees(children, PostLimit);
  }

  /** GET: the posts when the site answers 2xx with a listing; 500 with the
      fixed message when it answers otherwise, its body is not a listing, or it
      cannot be reached. */
  function Get(upstream: Upstream): (r: Response<seq<Post>>)
    ensures r.Ok? <==> upstream.Answered? && IsOk(upstream.status) && upstream.children.Some?
    ensures r.Ok? ==> r.body == ExtractPosts(upstream.children.value) && |r.body| <= PostLimit
    ensures r.Fail? ==> r == Fail(500, FailureMessage)
  {
    match upstream
    case Unreachable => Fail(500, FailureMessage)
    case Answered(status, children) =>
      if !IsOk(status) then Fail(500, FailureMessage)
      else if children.None? then Fail(500, FailureMessage)
      else Ok(ExtractPosts(children.value))
  }
}
