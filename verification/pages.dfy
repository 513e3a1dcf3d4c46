/** The pages a build writes from the loaded posts. Templates are not
    modelled: a page is recorded as what its template receives, under the
    path it is written to. */
module Pages {
  import opened Common
  import opened PyStr
  import opened Dates
  import opened Meta
  import opened Posts
  import opened Loader

  /** The number of posts the home page lists. */
  const HomeCount: nat := 5

  /** `self.posts[:5]`. */
  function HomePosts(posts: seq<Post>): (r: seq<Post>)
    ensures |r| == if |posts| < HomeCount then |posts| else HomeCount
    ensures r == posts[..|r|]
  {
    posts[..if |posts| < HomeCount then |posts| else HomeCount]
  }

  /** After a successful load, the home page lists the five newest published
      posts (all of them when there are fewer): every post it lists is
      published, is one of the loaded posts, and is no older than any
      published post it leaves out. */
  lemma {:induction false} HomeShowsNewest(files: seq<SourceFile>, c: Codecs, now: DateTime)
    requires LoadOutcome(Some(files), c, now).0.Ok?
    ensures ParseAll(files, c, now).Ok?
    ensures var posts := LoadOutcome(Some(files), c, now).1;
      var home := HomePosts(posts);
      && home == posts[..|home|]
      && |home| == (if |posts| < HomeCount then |posts| else HomeCount)
      && |posts| == |PublishedOnly(ParseAll(files, c, now).value)|
      && (forall p :: p in home ==> IsPublished(p))
      && (|posts| >= 2 ==> forall i, j :: 0 <= i < |home| <= j < |posts| ==> NotAfter(Key(posts[j]), Key(home[i])))
  {
    LoadSucceeds(files, c, now);
    var posts := LoadOutcome(Some(files), c, now).1;
    var published := PublishedOnly(ParseAll(files, c, now).value);
    assert |posts| == |multiset(posts)| == |multiset(published)| == |published|;
    var home := HomePosts(posts);
    forall p | p in home ensures IsPublished(p) {
      assert p in posts;
    }
  }

  /** Where each page goes. */
  const HomePath: string := "docs/index.html"
  const WritingIndexPath: string := "docs/writing/index.html"
  const AboutPath: string := "docs/about.html"
  const FeedPath: string := "docs/feed.xml"

  /** `OUTPUT_DIR / 'writing' / slug / 'index.html'`. */
  function PostPagePath(slug: string): string {
    "docs/writing/" + slug + "/index.html"
  }

  /** A post's page sits where its URL points: at the URL's path (without
      the base URL) under the output directory, as that directory's index. */
  lemma PostPageAtUrl(baseUrl: string, slug: string)
    ensures Url(baseUrl, slug) == baseUrl + Url("", slug)
    ensures PostPagePath(slug) == "docs" + Url("", slug) + "index.html"
  {
  }

  /** Different slugs get different page paths. */
  lemma PostPagePathInjective(s1: string, s2: string)
    ensures PostPagePath(s1) == PostPagePath(s2) <==> s1 == s2
  {
    var p1, p2 := PostPagePath(s1), PostPagePath(s2);
    if p1 == p2 {
      assert |s1| == |s2|;
      assert p1[13..13 + |s1|] == s1;
      assert p2[13..13 + |s2|] == s2;
    }
  }

  /** A rendered page, as what its template receives. */
  datatype Page =
    | HomePage(recent: seq<Post>)
    | WritingPage(all: seq<Post>)
    | PostPage(post: Post)
    | AboutPage(html: string)
    | FeedPage(items: seq<Post>)

  /** The post pages `_generate_posts` writes, one per post in list order, a
      later post with the same slug replacing an earlier one. */
  function PostPages(posts: seq<Post>): map<string, Page> {
    if posts == [] then
      map[]
    else
      var p := posts[|posts| - 1];
      PostPages(posts[..|posts| - 1])[PostPagePath(p.slug) := PostPage(p)]
  }

  /** There is a page for every post and for nothing else. */
  lemma {:induction false} PostPagesKeys(posts: seq<Post>)
    ensures PostPages(posts).Keys == set p | p in posts :: PostPagePath(p.slug)
  {
    if posts != [] {
      var n := |posts| - 1;
      PostPagesKeys(posts[..n]);
      assert posts == posts[..n] + [posts[n]];
    }
  }

  /** Every page is the page of one of the posts, at that post's path. */
  lemma {:induction false} PostPagesValues(posts: seq<Post>)
    ensures forall path :: path in PostPages(posts) ==>
      && PostPages(posts)[path].PostPage?
      && PostPages(posts)[path].post in posts
      && path == PostPagePath(PostPages(posts)[path].post.slug)
  {
    if posts != [] {
      var n := |posts| - 1;
      PostPagesValues(posts[..n]);
      assert posts == posts[..n] + [posts[n]];
    }
  }

  /** A post whose slug no later post shares keeps its own page. */
  lemma {:induction false} PostPagesLastWins(posts: seq<Post>, i: nat)
    requires i < |posts| && forall j :: i < j < |posts| ==> posts[j].slug != posts[i].slug
    ensures PostPagePath(posts[i].slug) in PostPages(posts)
    ensures PostPages(posts)[PostPagePath(posts[i].slug)] == PostPage(posts[i])
  {
    var n := |posts| - 1;
    var init := posts[..n];
    if i < n {
      assert init[i] == posts[i];
      assert forall j :: i < j < n ==> init[j] == posts[j];
      PostPagesLastWins(init, i);
      PostPagePathInjective(posts[n].slug, posts[i].slug);
    }
  }

  /** The HTML of the about page: the Markdown of the about file's body, or
      nothing when there is no about file. */
  function AboutHtml(about: Option<string>, c: Codecs): (r: string)
    ensures about.None? ==> r == ""
  {
    match about
    case None => ""
    case Some(raw) => c.markdown(AboutBody(raw))
  }

  /** The pages of a whole build, in the order `build` writes them. The
      projects and contact pages are not part of this model. */
  function SiteOutput(posts: seq<Post>, about: Option<string>, c: Codecs): map<string, Page> {
    var fixed := map[HomePath := HomePage(HomePosts(posts)), WritingIndexPath := WritingPage(posts)];
    (fixed + PostPages(posts))[AboutPath := AboutPage(AboutHtml(about, c))][FeedPath := FeedPage(posts)]
  }

  /** A post page's path is longer than every fixed page's path. */
  lemma PostPagePathsAreLong(posts: seq<Post>)
    ensures forall path :: path in PostPages(posts) ==> |path| >= 24
  {
    PostPagesValues(posts);
  }

  /** A build writes the four fixed pages and one page per post path, and
      nothing else. */
  lemma SiteOutputKeys(posts: seq<Post>, about: Option<string>, c: Codecs)
    ensures SiteOutput(posts, about, c).Keys
      == {HomePath, WritingIndexPath, AboutPath, FeedPath} + (set p | p in posts :: PostPagePath(p.slug))
  {
    PostPagesKeys(posts);
  }

  /** Every post page of a build is the one `_generate_posts` wrote: no
      later page lands on a post page's path. */
  lemma SiteOutputPostPages(posts: seq<Post>, about: Option<string>, c: Codecs)
    ensures forall path :: path in PostPages(posts) ==>
      SiteOutput(posts, about, c)[path] == PostPages(posts)[path]
  {
    PostPagePathsAreLong(posts);
    assert |AboutPath| == 15 && |FeedPath| == 13;
  }

  /** The fixed pages get what their templates need: no post page lands on
      a fixed page's path. */
  lemma SiteOutputPages(posts: seq<Post>, about: Option<string>, c: Codecs)
    ensures var out := SiteOutput(posts, about, c);
      && out[HomePath] == HomePage(HomePosts(posts))
      && out[WritingIndexPath] == WritingPage(posts)
      && out[AboutPath] == AboutPage(AboutHtml(about, c))
      && out[FeedPath] == FeedPage(posts)
  {
    var pages := PostPages(posts);
    PostPagePathsAreLong(posts);
    assert |HomePath| == 15 && |WritingIndexPath| == 23 && |AboutPath| == 15 && |FeedPath| == 13;
    assert HomePath !in pages && WritingIndexPath !in pages;
    var fixed := map[HomePath := HomePage(HomePosts(posts)), WritingIndexPath := WritingPage(posts)];
    var merged := fixed + pages;
    assert merged[HomePath] == HomePage(HomePosts(posts));
    assert merged[WritingIndexPath] == WritingPage(posts);
    assert SiteOutput(posts, about, c) == merged[AboutPath := AboutPage(AboutHtml(about, c))][FeedPath := FeedPage(posts)];
  }
}
