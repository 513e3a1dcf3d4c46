/** `SiteGenerator`: the list of posts `load_posts` fills, and the output
    directory that `build` empties and the page generators fill from that
    list. */
module Generator {
  import opened Common
  import opened PyStr
  import opened Dates
  import opened Meta
  import opened Posts
  import opened Loader
  import opened Pages

  class SiteGenerator {
    var posts: seq<Post>
    var output: map<string, Page>

    constructor()
      ensures posts == [] && output == map[]
    {
      posts := [];
      output := map[];
    }

    /** `load_posts`, the loop appending one published post at a time. */
    method LoadPosts(dir: Option<seq<SourceFile>>, c: Codecs, now: DateTime) returns (r: Result<()>)
      modifies this
      ensures (r, posts) == LoadOutcome(dir, c, now)
      ensures output == old(output)
    {
      posts := [];
      if dir.None? {
        return Ok(());
      }
      var files := dir.value;
      var i := 0;
      while i < |files|
        invariant 0 <= i <= |files|
        invariant Scan(files[..i], c, now) == (posts, None)
        invariant output == old(output)
      {
        var f := files[i];
        assert files[..i + 1][..i] == files[..i];
        if IsMarkdownName(f.name) {
          var parsed := NewPost(f.name, f.text, c, now);
          if parsed.Err? {
            ScanStops(files, i + 1, c, now);
            return Err(parsed.error);
          }
          if IsPublished(parsed.value) {
            posts := posts + [parsed.value];
          }
        }
        i := i + 1;
      }
      assert files[..i] == files;
      if |posts| >= 2 {
        if !AllDated(posts) {
          return Err(IncomparableDates);
        }
        posts := SortDesc(posts);
      }
      r := Ok(());
    }

    /** `_generate_home`: the first five posts. */
    method GenerateHome()
      modifies this
      ensures posts == old(posts)
      ensures output == old(output)[HomePath := HomePage(HomePosts(posts))]
    {
      var recent := HomePosts(posts);
      output := output[HomePath := HomePage(recent)];
    }

    /** `_generate_writing_index`: every post. */
    method GenerateWritingIndex()
      modifies this
      ensures posts == old(posts)
      ensures output == old(output)[WritingIndexPath := WritingPage(posts)]
    {
      output := output[WritingIndexPath := WritingPage(posts)];
    }

    /** `_generate_posts`: one page per post, in list order. */
    method GeneratePosts()
      modifies this
      ensures posts == old(posts)
      ensures output == old(output) + PostPages(posts)
    {
      var i := 0;
      while i < |posts|
        invariant 0 <= i <= |posts|
        invariant posts == old(posts)
        invariant output == old(output) + PostPages(posts[..i])
      {
        var post := posts[i];
        assert posts[..i + 1][..i] == posts[..i];
        output := output[PostPagePath(post.slug) := PostPage(post)];
        i := i + 1;
      }
      assert posts[..i] == posts;
    }

    /** `_generate_about`, given the about file's text if it exists. */
    method GenerateAbout(about: Option<string>, c: Codecs)
      modifies this
      ensures posts == old(posts)
      ensures output == old(output)[AboutPath := AboutPage(AboutHtml(about, c))]
    {
      var content := "";
      if about.Some? {
        var raw := about.value;
        var parts := FrontMatterParts(raw);
        if parts.Some? {
          raw := Strip(parts.value.1);
        }
        content := c.markdown(raw);
      }
      output := output[AboutPath := AboutPage(content)];
    }

    /** `_generate_rss`: every post. */
    method GenerateRss()
      modifies this
      ensures posts == old(posts)
      ensures output == old(output)[FeedPath := FeedPage(posts)]
    {
      output := output[FeedPath := FeedPage(posts)];
    }

    /** `build`: empty the output directory, load the posts, and run the page
        generators over the loaded list. A failing load stops the build with
        the output directory left empty. */
    method Build(dir: Option<seq<SourceFile>>, about: Option<string>, c: Codecs, now: DateTime)
      returns (r: Result<()>)
      modifies this
      ensures (r, posts) == LoadOutcome(dir, c, now)
      ensures output == if r.Ok? then SiteOutput(posts, about, c) else map[]
    {
      output := map[];
      r := LoadPosts(dir, c, now);
      if r.Err? {
        return;
      }
      GenerateHome();
      GenerateWritingIndex();
      GeneratePosts();
      GenerateAbout(about, c);
      GenerateRss();
    }
  }
}
