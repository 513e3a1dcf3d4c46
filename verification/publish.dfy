/** `SiteGenerator.publish`: move a draft into the posts directory and mark
    it published in its front matter. The file system is a map from path to
    text; the rebuild that follows is reported, not performed. */
module Publish {
  import opened Common
  import opened PyStr
  import opened Dates
  import opened Meta
  import opened Posts

  const DraftsDir: string := "content/drafts/"
  const PostsDir: string := "content/posts/"

  function DraftPath(filename: string): string {
    DraftsDir + filename
  }

  function PostPath(filename: string): string {
    PostsDir + filename
  }

  /** A draft and its published copy never share a path. */
  lemma DraftPathIsNotPostPath(filename: string)
    ensures DraftPath(filename) != PostPath(filename)
  {
    assert DraftPath(filename)[8] == 'd' && PostPath(filename)[8] == 'p';
  }

  /** The front matter `publish` writes back: `published` set to true, `date`
      kept when present and otherwise today's date as `YYYY-MM-DD` text, every
      other key unchanged. */
  function UpdateFrontMatter(fm: Metadata, now: DateTime): (r: Metadata)
    requires Valid(now)
    ensures r.Keys == fm.Keys + {"published", "date"}
    ensures r["published"] == VBool(true)
    ensures "date" in fm ==> r["date"] == fm["date"]
    ensures "date" !in fm ==> r["date"] == VStr(FormatDate(now)) && ParseDate(r["date"].s).Ok?
    ensures forall k :: k in fm && k != "published" && k != "date" ==> r[k] == fm[k]
  {
    var m := fm["published" := VBool(true)];
    if "date" in m then
      m
    else
      ParseFormatDate(now);
      m["date" := VStr(FormatDate(now))]
  }

  /** The text `publish` writes over the moved file, or `None` when the file
      has no front matter and stays as it is. A YAML error is not caught
      here, whatever its kind. */
  function RewriteText(text: string, c: Codecs, now: DateTime): (r: Result<Option<string>>)
    requires Valid(now)
    ensures r == Ok(None) <==> FrontMatterParts(text).None?
    ensures r.Ok? && r.value.Some? ==> StartsWith(r.value.value, Marker)
  {
    match FrontMatterParts(text)
    case None => Ok(None)
    case Some((fm, body)) =>
      match c.yamlLoad(fm)
      case RaisedValueError => Err(YamlFailure)
      case RaisedOther => Err(YamlFailure)
      case Loaded(v) =>
        match AsMetadata(v)
        case None => Err(NotAMapping)
        case Some(m) => Ok(Some("---\n" + c.yamlDump(UpdateFrontMatter(m, now)) + "---\n" + body))
  }

  /** How `publish` ends: the draft was missing, it ran to the rebuild, or an
      error stopped it. */
  datatype PublishOutcome = DraftNotFound | RebuildRequested | Failed(error: Error)

  /** `publish(filename)` on the files `files`: the files afterwards and the
      outcome. The draft is moved (replacing any post of that name) before
      the post is parsed, so a later failure leaves it moved. */
  function PublishEffect(files: map<string, string>, filename: string, c: Codecs, now: DateTime)
    : (r: (map<string, string>, PublishOutcome))
    requires Valid(now)
    ensures r.1 == DraftNotFound <==> DraftPath(filename) !in files
  {
    var draft, target := DraftPath(filename), PostPath(filename);
    if draft !in files then
      (files, DraftNotFound)
    else
      var text := files[draft];
      var moved := (files - {draft})[target := text];
      match ParsePost(filename, text, c, now)
      case Err(e) => (moved, Failed(e))
      case Ok(_) =>
        match RewriteText(text, c, now)
        case Err(e) => (moved, Failed(e))
        case Ok(None) => (moved, RebuildRequested)
        case Ok(Some(t)) => (moved[target := t], RebuildRequested)
  }

  /** A missing draft changes nothing. Otherwise the draft's path is gone,
      the post's path holds the draft (rewritten or not), every other path
      is untouched, and a failure leaves the draft's text there unchanged. */
  lemma PublishFrame(files: map<string, string>, filename: string, c: Codecs, now: DateTime)
    requires Valid(now)
    ensures DraftPath(filename) !in files ==> PublishEffect(files, filename, c, now) == (files, DraftNotFound)
    ensures DraftPath(filename) in files ==>
      var (after, outcome) := PublishEffect(files, filename, c, now);
      && outcome != DraftNotFound
      && DraftPath(filename) !in after
      && PostPath(filename) in after
      && (outcome.Failed? ==> after[PostPath(filename)] == files[DraftPath(filename)])
      && forall p :: p != DraftPath(filename) && p != PostPath(filename) ==>
           (p in after <==> p in files) && (p in files ==> after[p] == files[p])
  {
    DraftPathIsNotPostPath(filename);
  }

  /** When `publish` runs to the rebuild, the moved file is the draft itself
      if it has no front matter; otherwise it is the new front matter
      followed by the draft's body after the second marker, character for
      character of the text as read. */
  lemma PublishKeepsBody(files: map<string, string>, filename: string, c: Codecs, now: DateTime)
    requires Valid(now) && DraftPath(filename) in files
    requires PublishEffect(files, filename, c, now).1 == RebuildRequested
    ensures var text := files[DraftPath(filename)];
      var after := PublishEffect(files, filename, c, now).0;
      match FrontMatterParts(text)
      case None => after[PostPath(filename)] == text
      case Some((fm, body)) =>
        && c.yamlLoad(fm).Loaded?
        && AsMetadata(c.yamlLoad(fm).value).Some?
        && after[PostPath(filename)]
             == "---\n" + c.yamlDump(UpdateFrontMatter(AsMetadata(c.yamlLoad(fm).value).value, now)) + "---\n" + body
  {
  }

  /** The rewritten text is marker, block, marker, body again: the block
      and the body each gain a leading newline, which stripping removes. */
  lemma RewrittenShape(dump: string, body: string)
    ensures "---\n" + dump + "---\n" + body == Marker + ("\n" + dump) + Marker + ("\n" + body)
    ensures Strip("\n" + body) == Strip(body)
  {
    assert ("\n" + body) == ['\n'] + body;
    StripSkipsLeadingSpace('\n', body);
  }

  /** The defaults applied to the rewritten front matter: the post is
      published, its title is untouched, and its date is what the draft's
      date became, or today at midnight when the draft had none. */
  lemma DefaultsOfUpdated(m: Metadata, now: DateTime)
    requires Valid(now) && ApplyDefaults(m, now).Ok?
    ensures var after := ApplyDefaults(UpdateFrontMatter(m, now), now);
      var before := ApplyDefaults(m, now).value;
      && after.Ok?
      && after.value["published"] == VBool(true)
      && ("title" in after.value <==> "title" in before)
      && ("title" in before ==> after.value["title"] == before["title"])
      && after.value["date"] == (if "date" in m then before["date"] else VDate(Midnight(now)))
  {
    if "date" !in m {
      ParseFormatDate(now);
    }
  }

  /** The moved file with its new front matter, read back as a post: when
      the dumped front matter holds no marker and loads back as the mapping
      that was dumped, the post is published, keeps the content and title it
      had as a draft, and keeps its date; a post that had no date gets
      today's, at midnight. */
  lemma ReparseRewritten(name: string, m: Metadata, body: string, c: Codecs, now: DateTime)
    requires Valid(now) && ApplyDefaults(m, now).Ok?
    requires var dump := c.yamlDump(UpdateFrontMatter(m, now));
      && !Contains("\n" + dump + "--", Marker)
      && c.yamlLoad("\n" + dump) == Loaded(VMap(UpdateFrontMatter(m, now)))
    ensures var q := ParsePost(name, "---\n" + c.yamlDump(UpdateFrontMatter(m, now)) + "---\n" + body, c, now);
      var before := ApplyDefaults(m, now).value;
      && q.Ok?
      && IsPublished(q.value)
      && q.value.content == Strip(body)
      && ("title" in q.value.metadata <==> "title" in before)
      && ("title" in before ==> q.value.metadata["title"] == before["title"])
      && q.value.metadata["date"] == (if "date" in m then before["date"] else VDate(Midnight(now)))
  {
    var u := UpdateFrontMatter(m, now);
    var dump := c.yamlDump(u);
    RewrittenShape(dump, body);
    var block := "\n" + dump;
    var loaded := c.yamlLoad(block);
    assert loaded == Loaded(VMap(u));
    assert "published" in u && Truthy(VMap(u));
    ParsePostWithFrontMatter(name, block, "\n" + body, u, c, now);
    DefaultsOfUpdated(m, now);
  }

  /** Publishing a draft with front matter and reading the result back:
      under the same conditions on the dumped YAML, the post is published
      and keeps the draft's content, title and date. */
  lemma PublishThenLoad(files: map<string, string>, filename: string, c: Codecs, now: DateTime,
                        fm: string, body: string, m: Metadata)
    requires Valid(now)
    requires DraftPath(filename) in files && files[DraftPath(filename)] == Marker + fm + Marker + body
    requires !Contains(fm + "--", Marker)
    requires c.yamlLoad(fm).Loaded? && AsMetadata(c.yamlLoad(fm).value) == Some(m)
    requires ParsePost(filename, files[DraftPath(filename)], c, now).Ok?
    requires var dump := c.yamlDump(UpdateFrontMatter(m, now));
      && !Contains("\n" + dump + "--", Marker)
      && c.yamlLoad("\n" + dump) == Loaded(VMap(UpdateFrontMatter(m, now)))
    ensures var (after, outcome) := PublishEffect(files, filename, c, now);
      var draft := ParsePost(filename, files[DraftPath(filename)], c, now).value;
      && outcome == RebuildRequested
      && PostPath(filename) in after
      && var q := ParsePost(filename, after[PostPath(filename)], c, now);
      && q.Ok?
      && IsPublished(q.value)
      && q.value.content == draft.content
      && Title(q.value) == Title(draft)
      && Date(q.value) == (if "date" in m then Date(draft) else VDate(Midnight(now)))
  {
    ParsePostWithFrontMatter(filename, fm, body, m, c, now);
    FrontMatterPartsOf(fm, body);
    ReparseRewritten(filename, m, body, c, now);
  }

  /** The working tree `publish` acts on. */
  class Workspace {
    var files: map<string, string>

    constructor(initial: map<string, string>)
      ensures files == initial
    {
      files := initial;
    }

    /** `publish(filename)`. */
    method Publish(filename: string, c: Codecs, now: DateTime) returns (outcome: PublishOutcome)
      requires Valid(now)
      modifies this
      ensures (files, outcome) == PublishEffect(old(files), filename, c, now)
    {
      var draftPath := DraftPath(filename);
      if draftPath !in files {
        return DraftNotFound;
      }
      var postPath := PostPath(filename);
      var moving := files[draftPath];
      files := (files - {draftPath})[postPath := moving];
      var post := NewPost(filename, files[postPath], c, now);
      if post.Err? {
        return Failed(post.error);
      }
      var content := files[postPath];
      if StartsWith(content, Marker) {
        var parts := SplitN(content, Marker, 2);
        if |parts| >= 3 {
          var loaded := c.yamlLoad(parts[1]);
          if !loaded.Loaded? {
            return Failed(YamlFailure);
          }
          var frontMatter := AsMetadata(loaded.value);
          if frontMatter.None? {
            return Failed(NotAMapping);
          }
          var fm := frontMatter.value["published" := VBool(true)];
          if "date" !in fm {
            fm := fm["date" := VStr(FormatDate(now))];
          }
          files := files[postPath := "---\n" + c.yamlDump(fm) + "---\n" + parts[2]];
        }
      }
      return RebuildRequested;
    }
  }
}
