/**
 * Aggregation helpers over an in-memory list of blog records
 * (utils/list_helper.js): total likes, favourite blog, the author with
 * most blogs and the author with most likes.
 *
 * Every `Array.prototype.reduce` of the source is a left fold; it is
 * written here with recursion on the LAST element, so that
 * `F(xs + [x])` unfolds to one reducer step applied to `F(xs)`.
 */
module ListHelper {
  import opened Wrappers

  /**
   * A blog record as the helpers receive it: the plain values of a blog
   * document's `title`, `author`, `url` and `likes`. Unlike a stored
   * `BlogModel.Blog`, every field holds a value (author a string, likes an
   * integer), which is what the helpers' arithmetic and grouping assume.
   */
  datatype BlogEntry = BlogEntry(title: string, author: string, url: string, likes: int)

  /** The `{ title, author, likes }` projection returned by favoriteBlog. */
  datatype Favorite = Favorite(title: string, author: string, likes: int)

  /** One element of the `authorsGroup` array built by mostBlogs. */
  datatype AuthorBlogs = AuthorBlogs(author: string, blogs: nat)

  /** One element of the `authorsGroup` array built by mostLikes. */
  datatype AuthorLikes = AuthorLikes(author: string, likes: int)

  /** One entry of lodash's `groupBy('author')`: a key and its records, in input order. */
  datatype Group = Group(author: string, members: seq<BlogEntry>)

  function Dummy(blogs: seq<BlogEntry>): (r: int)
    ensures r == 1
  {
    1
  }

  // ---------------------------------------------------------------------
  // totalLikes

  function TotalLikes(blogs: seq<BlogEntry>): (r: int)
    ensures blogs == [] ==> r == 0
    ensures (forall b :: b in blogs ==> b.likes >= 0) ==> r >= 0
  {
    if blogs == [] then 0 else TotalLikes(blogs[..|blogs| - 1]) + blogs[|blogs| - 1].likes
  }

  /** Summing is compositional: the total of a concatenation is the sum of the totals. */
  lemma {:induction false} TotalLikesAppend(xs: seq<BlogEntry>, ys: seq<BlogEntry>)
    ensures TotalLikes(xs + ys) == TotalLikes(xs) + TotalLikes(ys)
    decreases |ys|
  {
    if ys == [] {
      assert xs + ys == xs;
    } else {
      var ys' := ys[..|ys| - 1];
      assert (xs + ys)[..|xs + ys| - 1] == xs + ys';
      TotalLikesAppend(xs, ys');
    }
  }

  /** With non-negative likes the total bounds every single record's likes. */
  lemma {:induction false} TotalLikesBounds(blogs: seq<BlogEntry>)
    requires forall b :: b in blogs ==> b.likes >= 0
    ensures TotalLikes(blogs) >= 0
    ensures forall b :: b in blogs ==> b.likes <= TotalLikes(blogs)
  {
    if blogs != [] {
      var init := blogs[..|blogs| - 1];
      assert forall b :: b in init ==> b in blogs;
      TotalLikesBounds(init);
      assert forall b :: b in blogs ==> b in init || b == blogs[|blogs| - 1];
    }
  }

  // ---------------------------------------------------------------------
  // The "keep the champion only when strictly greater" reduction shared by
  // favoriteBlog, mostBlogs and mostLikes.

  /** The reducer: the current champion survives only when its key is strictly greater. */
  function Keep<T>(key: T -> int, top: T, current: T): (r: T)
    ensures r == top || r == current
    ensures key(r) >= key(top) && key(r) >= key(current)
    ensures key(top) == key(current) ==> r == current
  {
    if key(top) > key(current) then top else current
  }

  /** `xs.reduce(Keep, init)` */
  function Reduce<T>(key: T -> int, init: T, xs: seq<T>): (r: T)
    ensures r == init || r in xs
    ensures key(r) >= key(init)
    ensures forall x :: x in xs ==> key(x) <= key(r)
    decreases |xs|
  {
    if xs == [] then init else Keep(key, Reduce(key, init, xs[..|xs| - 1]), xs[|xs| - 1])
  }

  /** `xs[i]` has a maximal key and every later element has a strictly smaller one. */
  ghost predicate IsLastMax<T>(key: T -> int, xs: seq<T>, i: int)
  {
    && 0 <= i < |xs|
    && (forall j :: 0 <= j < |xs| ==> key(xs[j]) <= key(xs[i]))
    && (forall j :: i < j < |xs| ==> key(xs[j]) < key(xs[i]))
  }

  /** At most one index is the last maximal one. */
  lemma LastMaxUnique<T>(key: T -> int, xs: seq<T>, i: int, k: int)
    requires IsLastMax(key, xs, i) && IsLastMax(key, xs, k)
    ensures i == k
  {
    assert key(xs[i]) <= key(xs[k]) && key(xs[k]) <= key(xs[i]);
  }

  /** Reducing a non-empty list seeded with its own head yields its last maximal element. */
  lemma {:induction false} ReduceFromHead<T>(key: T -> int, xs: seq<T>)
    requires |xs| > 0
    ensures exists i :: IsLastMax(key, xs, i) && Reduce(key, xs[0], xs) == xs[i]
    decreases |xs|
  {
    var n := |xs|;
    var last := xs[n - 1];
    var prefix := xs[..n - 1];
    if n == 1 {
      assert Reduce(key, xs[0], prefix) == xs[0];
      assert IsLastMax(key, xs, 0);
    } else {
      assert prefix[0] == xs[0];
      ReduceFromHead(key, prefix);
      var i :| IsLastMax(key, prefix, i) && Reduce(key, xs[0], prefix) == prefix[i];
      if key(prefix[i]) > key(last) {
        assert Reduce(key, xs[0], xs) == xs[i];
        assert IsLastMax(key, xs, i);
      } else {
        assert Reduce(key, xs[0], xs) == last;
        assert IsLastMax(key, xs, n - 1);
      }
    }
  }

  // ---------------------------------------------------------------------
  // favoriteBlog

  function Likes(b: BlogEntry): int
  {
    b.likes
  }

  /** Keeps exactly title, author and likes; the url is dropped. */
  function Project(b: BlogEntry): (r: Favorite)
    ensures r.title == b.title && r.author == b.author && r.likes == b.likes
  {
    Favorite(b.title, b.author, b.likes)
  }

  /**
   * The record with the most likes, projected to title/author/likes. The
   * source destructures `undefined` on an empty list, so callers must pass
   * a non-empty one. On a tie the LATER record wins.
   */
  function FavoriteBlog(blogs: seq<BlogEntry>): (r: Favorite)
    requires |blogs| > 0
    ensures exists i :: IsLastMax(Likes, blogs, i) && r == Project(blogs[i])
    ensures exists b :: b in blogs && r == Project(b)
    ensures forall b :: b in blogs ==> b.likes <= r.likes
  {
    ReduceFromHead(Likes, blogs);
    var top := Reduce(Likes, blogs[0], blogs);
    assert exists i :: IsLastMax(Likes, blogs, i) && top == blogs[i];
    Project(top)
  }

  /** Tie-break: whichever record is last among the maximal ones is the one returned. */
  lemma FavoriteBlogTieBreak(blogs: seq<BlogEntry>, i: int)
    requires IsLastMax(Likes, blogs, i)
    ensures FavoriteBlog(blogs) == Project(blogs[i])
  {
    var k :| IsLastMax(Likes, blogs, k) && FavoriteBlog(blogs) == Project(blogs[k]);
    LastMaxUnique(Likes, blogs, i, k);
  }

  // ---------------------------------------------------------------------
  // Grouping by author (lodash `groupBy('author')`)

  /** The records written by author `a`, in input order. */
  function ByAuthor(blogs: seq<BlogEntry>, a: string): (r: seq<BlogEntry>)
    ensures forall b :: b in r ==> b in blogs && b.author == a
  {
    if blogs == [] then []
    else
      var last := blogs[|blogs| - 1];
      ByAuthor(blogs[..|blogs| - 1], a) + (if last.author == a then [last] else [])
  }

  /** The distinct authors in order of first appearance. */
  function Authors(blogs: seq<BlogEntry>): seq<string>
  {
    if blogs == [] then []
    else
      var init := Authors(blogs[..|blogs| - 1]);
      var a := blogs[|blogs| - 1].author;
      if a in init then init else init + [a]
  }

  ghost predicate Distinct(s: seq<string>)
  {
    forall i, j :: 0 <= i < j < |s| ==> s[i] != s[j]
  }

  /** The authors list names each author exactly once. */
  lemma {:induction false} AuthorsDistinct(blogs: seq<BlogEntry>)
    ensures Distinct(Authors(blogs))
  {
    if blogs != [] {
      AuthorsDistinct(blogs[..|blogs| - 1]);
    }
  }

  /** The authors list names exactly the authors present in the input. */
  lemma {:induction false} AuthorsCover(blogs: seq<BlogEntry>)
    ensures forall a :: a in Authors(blogs) <==> exists b :: b in blogs && b.author == a
  {
    if blogs != [] {
      var init := blogs[..|blogs| - 1];
      var last := blogs[|blogs| - 1];
      AuthorsCover(init);
      assert forall b :: b in blogs <==> b in init || b == last;
    }
  }

  /** An author present in the input has at least one record. */
  lemma {:induction false} ByAuthorNonEmpty(blogs: seq<BlogEntry>, b: BlogEntry)
    requires b in blogs
    ensures |ByAuthor(blogs, b.author)| > 0
  {
    var init := blogs[..|blogs| - 1];
    if b != blogs[|blogs| - 1] {
      assert b in init;
      ByAuthorNonEmpty(init, b);
    }
  }

  function Keys(gs: seq<Group>): (r: seq<string>)
    ensures |r| == |gs|
    ensures forall k :: 0 <= k < |gs| ==> r[k] == gs[k].author
  {
    if gs == [] then [] else [gs[0].author] + Keys(gs[1..])
  }

  /** The members of the first group keyed `a`, or none. */
  function Lookup(gs: seq<Group>, a: string): seq<BlogEntry>
  {
    if gs == [] then [] else if gs[0].author == a then gs[0].members else Lookup(gs[1..], a)
  }

  function Sizes(gs: seq<Group>): nat
  {
    if gs == [] then 0 else |gs[0].members| + Sizes(gs[1..])
  }

  function GroupLikes(gs: seq<Group>): int
  {
    if gs == [] then 0 else TotalLikes(gs[0].members) + GroupLikes(gs[1..])
  }

  /** One step of groupBy: append `b` to its author's group, or open a new group at the end. */
  function AddToGroups(gs: seq<Group>, b: BlogEntry): (r: seq<Group>)
    ensures Keys(r) == if b.author in Keys(gs) then Keys(gs) else Keys(gs) + [b.author]
    ensures forall a :: Lookup(r, a) == if a == b.author then Lookup(gs, a) + [b] else Lookup(gs, a)
    ensures Sizes(r) == Sizes(gs) + 1
    ensures GroupLikes(r) == GroupLikes(gs) + b.likes
  {
    if gs == [] then
      assert TotalLikes([b]) == b.likes by { assert [b][..0] == []; }
      [Group(b.author, [b])]
    else if gs[0].author == b.author then
      var g := gs[0].(members := gs[0].members + [b]);
      assert g.members[..|g.members| - 1] == gs[0].members;
      assert [g] + gs[1..] == [g] + gs[1..];
      [g] + gs[1..]
    else
      var rest := AddToGroups(gs[1..], b);
      assert ([gs[0]] + rest)[1..] == rest;
      [gs[0]] + rest
  }

  /**
   * `_.groupBy(blogs, 'author')` as a list of groups in order of first
   * appearance. The groups partition the input: one group per distinct
   * author, each holding exactly that author's records in input order,
   * and the sizes add up to the input length.
   */
  function GroupByAuthor(blogs: seq<BlogEntry>): (r: seq<Group>)
    ensures r == [] <==> blogs == []
    ensures Keys(r) == Authors(blogs)
    ensures forall a :: Lookup(r, a) == ByAuthor(blogs, a)
    ensures Sizes(r) == |blogs|
    ensures GroupLikes(r) == TotalLikes(blogs)
  {
    if blogs == [] then []
    else AddToGroups(GroupByAuthor(blogs[..|blogs| - 1]), blogs[|blogs| - 1])
  }

  /** With distinct keys, the group at position `k` is the one that lookup finds. */
  lemma {:induction false} LookupAt(gs: seq<Group>, k: int)
    requires 0 <= k < |gs|
    requires Distinct(Keys(gs))
    ensures Lookup(gs, gs[k].author) == gs[k].members
  {
    if k > 0 {
      assert Keys(gs)[0] != Keys(gs)[k];
      assert Keys(gs[1..]) == Keys(gs)[1..];
      assert Distinct(Keys(gs[1..]));
      LookupAt(gs[1..], k - 1);
    }
  }

  /** Each group of `GroupByAuthor(blogs)` is exactly one author's records, and no author repeats. */
  lemma GroupAt(blogs: seq<BlogEntry>, k: int)
    requires 0 <= k < |GroupByAuthor(blogs)|
    ensures |Authors(blogs)| == |GroupByAuthor(blogs)|
    ensures GroupByAuthor(blogs)[k].author == Authors(blogs)[k]
    ensures GroupByAuthor(blogs)[k].members == ByAuthor(blogs, Authors(blogs)[k])
  {
    var gs := GroupByAuthor(blogs);
    AuthorsDistinct(blogs);
    LookupAt(gs, k);
  }

  // ---------------------------------------------------------------------
  // mostBlogs

  function BlogCount(g: AuthorBlogs): int
  {
    g.blogs
  }

  /** The number of records written by `a`. */
  function CountOf(blogs: seq<BlogEntry>, a: string): nat
  {
    |ByAuthor(blogs, a)|
  }

  /** `.map((value, key) => ({ author: key, blogs: value.length }))` */
  function Counts(gs: seq<Group>): (r: seq<AuthorBlogs>)
    ensures |r| == |gs|
    ensures forall k :: 0 <= k < |gs| ==> r[k] == AuthorBlogs(gs[k].author, |gs[k].members|)
  {
    if gs == [] then [] else [AuthorBlogs(gs[0].author, |gs[0].members|)] + Counts(gs[1..])
  }

  /**
   * `r` names an author of the list with that author's record count, no
   * author has more records, and every author whose group comes later in
   * first-appearance order has strictly fewer.
   */
  ghost predicate IsMostBlogs(blogs: seq<BlogEntry>, r: AuthorBlogs)
  {
    && r.author in Authors(blogs)
    && r.blogs == CountOf(blogs, r.author)
    && (forall b :: b in blogs ==> CountOf(blogs, b.author) <= r.blogs)
    && exists k :: 0 <= k < |Authors(blogs)| && r.author == Authors(blogs)[k]
         && forall j :: k < j < |Authors(blogs)| ==> CountOf(blogs, Authors(blogs)[j]) < r.blogs
  }

  /**
   * The author with the most records and that count; `None` (the source's
   * `undefined`) for an empty list. On a tie the author whose group comes
   * LATER in first-appearance order wins.
   */
  function MostBlogs(blogs: seq<BlogEntry>): (r: Option<AuthorBlogs>)
    ensures r.None? <==> blogs == []
    ensures r.Some? ==> IsMostBlogs(blogs, r.value)
  {
    var counts := Counts(GroupByAuthor(blogs));
    if counts == [] then
      None
    else
      MostBlogsProof(blogs);
      Some(Reduce(BlogCount, counts[0], counts))
  }

  /** Position `k` of the per-author summaries describes the `k`-th author of the input. */
  lemma CountsAligned(blogs: seq<BlogEntry>)
    ensures |Counts(GroupByAuthor(blogs))| == |Authors(blogs)|
    ensures forall k :: 0 <= k < |Authors(blogs)| ==>
              Counts(GroupByAuthor(blogs))[k] == AuthorBlogs(Authors(blogs)[k], CountOf(blogs, Authors(blogs)[k]))
  {
    var gs := GroupByAuthor(blogs);
    assert |gs| == |Authors(blogs)|;
    forall k | 0 <= k < |gs|
      ensures Counts(gs)[k] == AuthorBlogs(Authors(blogs)[k], CountOf(blogs, Authors(blogs)[k]))
    {
      GroupAt(blogs, k);
    }
  }

  /** The last maximal per-author summary satisfies `IsMostBlogs`. */
  lemma TopCount(blogs: seq<BlogEntry>, k: int)
    requires IsLastMax(BlogCount, Counts(GroupByAuthor(blogs)), k)
    ensures IsMostBlogs(blogs, Counts(GroupByAuthor(blogs))[k])
  {
    var counts := Counts(GroupByAuthor(blogs));
    var authors := Authors(blogs);
    CountsAligned(blogs);
    var r := counts[k];
    assert r.author == authors[k];
    assert r.blogs == CountOf(blogs, r.author);
    forall j | k < j < |authors|
      ensures CountOf(blogs, authors[j]) < r.blogs
    {
      assert BlogCount(counts[j]) < BlogCount(counts[k]);
    }
    AuthorsCover(blogs);
    forall b | b in blogs
      ensures CountOf(blogs, b.author) <= r.blogs
    {
      assert b.author in authors;
      var j :| 0 <= j < |authors| && authors[j] == b.author;
      assert BlogCount(counts[j]) <= BlogCount(counts[k]);
    }
  }

  lemma MostBlogsProof(blogs: seq<BlogEntry>)
    requires |Counts(GroupByAuthor(blogs))| > 0
    ensures blogs != []
    ensures IsMostBlogs(blogs, Reduce(BlogCount, Counts(GroupByAuthor(blogs))[0], Counts(GroupByAuthor(blogs))))
  {
    var counts := Counts(GroupByAuthor(blogs));
    ReduceFromHead(BlogCount, counts);
    var k :| IsLastMax(BlogCount, counts, k) && Reduce(BlogCount, counts[0], counts) == counts[k];
    TopCount(blogs, k);
  }



  // ---------------------------------------------------------------------
  // mostLikes

  function LikeSum(g: AuthorLikes): int
  {
    g.likes
  }

  /** The sum of likes over the records written by `a`. */
  function LikesOf(blogs: seq<BlogEntry>, a: string): int
  {
    TotalLikes(ByAuthor(blogs, a))
  }

  /** `.map((value, key) => ({ author: key, likes: value.reduce(sum, 0) }))` */
  function Sums(gs: seq<Group>): (r: seq<AuthorLikes>)
    ensures |r| == |gs|
    ensures forall k :: 0 <= k < |gs| ==> r[k] == AuthorLikes(gs[k].author, TotalLikes(gs[k].members))
  {
    if gs == [] then [] else [AuthorLikes(gs[0].author, TotalLikes(gs[0].members))] + Sums(gs[1..])
  }

  /**
   * `r` names an author of the list with that author's like sum, no author
   * has a larger sum, and every author whose group comes later in
   * first-appearance order has a strictly smaller one.
   */
  ghost predicate IsMostLikes(blogs: seq<BlogEntry>, r: AuthorLikes)
  {
    && r.author in Authors(blogs)
    && r.likes == LikesOf(blogs, r.author)
    && (forall b :: b in blogs ==> LikesOf(blogs, b.author) <= r.likes)
    && exists k :: 0 <= k < |Authors(blogs)| && r.author == Authors(blogs)[k]
         && forall j :: k < j < |Authors(blogs)| ==> LikesOf(blogs, Authors(blogs)[j]) < r.likes
  }

  /**
   * The author whose records have the largest like sum, and that sum;
   * `None` for an empty list. Ties go to the LATER author group.
   */
  function MostLikes(blogs: seq<BlogEntry>): (r: Option<AuthorLikes>)
    ensures r.None? <==> blogs == []
    ensures r.Some? ==> IsMostLikes(blogs, r.value)
  {
    var sums := Sums(GroupByAuthor(blogs));
    if sums == [] then
      None
    else
      MostLikesProof(blogs);
      Some(Reduce(LikeSum, sums[0], sums))
  }

  /** Position `k` of the per-author summaries describes the `k`-th author of the input. */
  lemma SumsAligned(blogs: seq<BlogEntry>)
    ensures |Sums(GroupByAuthor(blogs))| == |Authors(blogs)|
    ensures forall k :: 0 <= k < |Authors(blogs)| ==>
              Sums(GroupByAuthor(blogs))[k] == AuthorLikes(Authors(blogs)[k], LikesOf(blogs, Authors(blogs)[k]))
  {
    var gs := GroupByAuthor(blogs);
    assert |gs| == |Authors(blogs)|;
    forall k | 0 <= k < |gs|
      ensures Sums(gs)[k] == AuthorLikes(Authors(blogs)[k], LikesOf(blogs, Authors(blogs)[k]))
    {
      GroupAt(blogs, k);
    }
  }

  /** The last maximal per-author summary satisfies `IsMostLikes`. */
  lemma TopSum(blogs: seq<BlogEntry>, k: int)
    requires IsLastMax(LikeSum, Sums(GroupByAuthor(blogs)), k)
    ensures IsMostLikes(blogs, Sums(GroupByAuthor(blogs))[k])
  {
    var sums := Sums(GroupByAuthor(blogs));
    var authors := Authors(blogs);
    SumsAligned(blogs);
    var r := sums[k];
    assert r.author == authors[k];
    assert r.likes == LikesOf(blogs, r.author);
    forall j | k < j < |authors|
      ensures LikesOf(blogs, authors[j]) < r.likes
    {
      assert LikeSum(sums[j]) < LikeSum(sums[k]);
    }
    AuthorsCover(blogs);
    forall b | b in blogs
      ensures LikesOf(blogs, b.author) <= r.likes
    {
      assert b.author in authors;
      var j :| 0 <= j < |authors| && authors[j] == b.author;
      assert LikeSum(sums[j]) <= LikeSum(sums[k]);
    }
  }

  lemma MostLikesProof(blogs: seq<BlogEntry>)
    requires |Sums(GroupByAuthor(blogs))| > 0
    ensures blogs != []
    ensures IsMostLikes(blogs, Reduce(LikeSum, Sums(GroupByAuthor(blogs))[0], Sums(GroupByAuthor(blogs))))
  {
    var sums := Sums(GroupByAuthor(blogs));
    ReduceFromHead(LikeSum, sums);
    var k :| IsLastMax(LikeSum, sums, k) && Reduce(LikeSum, sums[0], sums) == sums[k];
    TopSum(blogs, k);
  }
}
