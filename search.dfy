/** The `GET /api/posts` search: the published post list, narrowed by the
    `q` parameter to posts whose title, description or a tag contains it,
    ignoring letter case. */
module Search {
  import opened Db
  import opened Text
  import opened Posts

  /** Some tag, lowercased, contains the query. */
  predicate SomeTagIncludes(tags: seq<string>, search: string) {
    exists i :: 0 <= i < |tags| && Includes(ToLower(tags[i]), search)
  }

  /** The filter's condition, for an already lowercased query. */
  predicate Matches(post: PostSummary, search: string) {
    Includes(ToLower(post.title), search) ||
    Includes(ToLower(post.description), search) ||
    SomeTagIncludes(post.tags, search)
  }

  /** `posts.filter(...)`, in list order. */
  function Filter(posts: seq<PostSummary>, search: string): (r: seq<PostSummary>)
    ensures |r| <= |posts|
  {
    if posts == [] then []
    else (if Matches(posts[0], search) then [posts[0]] else []) + Filter(posts[1..], search)
  }

  /** The handler's result for the posts it fetched and the `q` parameter. */
  function SearchPosts(posts: seq<PostSummary>, q: Option<string>): (r: seq<PostSummary>)
    ensures |r| <= |posts|
    ensures forall p :: p in r ==> p in posts
  {
    if q.None? || q.value == [] then posts
    else
      FilterExact(posts, ToLower(q.value));
      Filter(posts, ToLower(q.value))
  }

  /** Without a query, or with an empty one, the list comes back as it is. */
  lemma NoQueryKeepsAll(posts: seq<PostSummary>, q: Option<string>)
    requires q.None? || q.value == []
    ensures SearchPosts(posts, q) == posts
  {
  }

  /** `a` is `b` with some elements left out, the rest in their order. */
  ghost predicate Subsequence<T>(a: seq<T>, b: seq<T>)
    decreases |b|
  {
    if a == [] then true
    else if b == [] then false
    else (a[0] == b[0] && Subsequence(a[1..], b[1..])) || Subsequence(a, b[1..])
  }

  lemma {:induction false} FilterSubsequence(posts: seq<PostSummary>, search: string)
    ensures Subsequence(Filter(posts, search), posts)
    decreases |posts|
  {
    if posts != [] {
      var rest := Filter(posts[1..], search);
      FilterSubsequence(posts[1..], search);
      if Matches(posts[0], search) {
        assert Filter(posts, search) == [posts[0]] + rest;
        assert ([posts[0]] + rest)[1..] == rest;
      } else {
        assert Filter(posts, search) == rest;
        SubsequenceCons(rest, posts);
      }
    }
  }

  lemma {:induction false} SubsequenceCons<T>(a: seq<T>, b: seq<T>)
    requires b != [] && Subsequence(a, b[1..])
    ensures Subsequence(a, b)
  {
  }

  /** Every post the filter keeps matches and comes from the list; every
      post of the list that matches is kept. */
  lemma {:induction false} FilterExact(posts: seq<PostSummary>, search: string)
    ensures forall p :: p in Filter(posts, search) <==> p in posts && Matches(p, search)
    decreases |posts|
  {
    if posts != [] {
      FilterExact(posts[1..], search);
      assert posts == [posts[0]] + posts[1..];
    }
  }

  /** With a query, the result is an order-keeping selection of the posts,
      holding exactly those whose lowercased title, description or some tag
      contains the lowercased query. */
  lemma SearchExact(posts: seq<PostSummary>, q: string)
    requires q != []
    ensures Subsequence(SearchPosts(posts, Some(q)), posts)
    ensures forall p :: p in SearchPosts(posts, Some(q)) <==> p in posts && Matches(p, ToLower(q))
  {
    FilterSubsequence(posts, ToLower(q));
    FilterExact(posts, ToLower(q));
  }

  /** The query's letter case does not matter. */
  lemma QueryCaseBlind(posts: seq<PostSummary>, q: string, q': string)
    requires ToLower(q) == ToLower(q')
    ensures SearchPosts(posts, Some(q)) == SearchPosts(posts, Some(q'))
  {
    assert |q| == |q'|;
  }

  /** Neither does the letter case of the title, description or tags: two
      posts equal up to case match the same queries. */
  lemma FieldsCaseBlind(a: PostSummary, b: PostSummary, search: string)
    requires ToLower(a.title) == ToLower(b.title) && ToLower(a.description) == ToLower(b.description)
    requires |a.tags| == |b.tags| && forall i :: 0 <= i < |a.tags| ==> ToLower(a.tags[i]) == ToLower(b.tags[i])
    ensures Matches(a, search) <==> Matches(b, search)
  {
    if SomeTagIncludes(a.tags, search) {
      var i :| 0 <= i < |a.tags| && Includes(ToLower(a.tags[i]), search);
      assert Includes(ToLower(b.tags[i]), search);
    }
    if SomeTagIncludes(b.tags, search) {
      var i :| 0 <= i < |b.tags| && Includes(ToLower(b.tags[i]), search);
      assert Includes(ToLower(a.tags[i]), search);
    }
  }
}
