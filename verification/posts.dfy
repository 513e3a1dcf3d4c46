/** A blog post read from a Markdown file with YAML front matter: the
    front-matter split, the metadata defaults, and the derived title, date,
    published flag and URL. A `Post` is built once and never changed
    afterwards, so it is a value here. */
module Posts {
  import opened Common
  import opened PyStr
  import opened Dates
  import opened Meta

  /** The front-matter delimiter. */
  const Marker: string := "---"

  /** The text split as `text.split('---', 2)` and unpacked into three names,
      after checking that it starts with the marker: the front-matter block
      and the body, or `None` when the text does not start with the marker
      or the unpacking raises `ValueError` (fewer than three parts). */
  function FrontMatterParts(text: string): (r: Option<(string, string)>)
    ensures r.Some? ==> StartsWith(text, Marker)
  {
    if !StartsWith(text, Marker) then
      None
    else
      var parts := SplitN(text, Marker, 2);
      if |parts| == 3 then Some((parts[1], parts[2])) else None
  }

  /** The first of the two cuts is the marker at the very start. */
  lemma SplitAtLeadingMarker(text: string)
    requires StartsWith(text, Marker)
    ensures SplitN(text, Marker, 2) == [""] + SplitN(text[3..], Marker, 1)
  {
    assert text == "" + Marker + text[3..];
    assert !Contains("" + Marker[..2], Marker) by {
      assert Find("--", Marker) == None;
    }
    FindAfter("", Marker, text[3..]);
    SplitNUnfold(text, Marker, 2, 0);
  }

  /** The second cut is at the first marker after the leading one. */
  lemma SplitOnce(rest: string)
    ensures Find(rest, Marker).None? ==> SplitN(rest, Marker, 1) == [rest]
    ensures Find(rest, Marker).Some? ==>
      var j := Find(rest, Marker).value;
      SplitN(rest, Marker, 1) == [rest[..j], rest[j + 3..]]
  {
    if Find(rest, Marker).Some? {
      var j := Find(rest, Marker).value;
      SplitNUnfold(rest, Marker, 1, j);
    }
  }

  /** Text built from a front-matter block and a body splits back into
      them, provided no marker starts inside the block, not even one that
      runs into the closing marker. */
  lemma FrontMatterPartsOf(fm: string, body: string)
    requires !Contains(fm + "--", Marker)
    ensures FrontMatterParts(Marker + fm + Marker + body) == Some((fm, body))
  {
    var text := Marker + fm + Marker + body;
    var rest := fm + Marker + body;
    assert text[..3] == Marker && text[3..] == rest;
    SplitAtLeadingMarker(text);
    assert Marker[..2] == "--";
    FindAfter(fm, Marker, body);
    SplitOnce(rest);
    assert rest[..|fm|] == fm && rest[|fm| + 3..] == body;
  }

  /** Whatever splits has that shape: the block is the text strictly between
      the leading marker and the next one, and the body is everything after
      it, later markers included. */
  lemma FrontMatterPartsShape(text: string)
    requires FrontMatterParts(text).Some?
    ensures var (fm, body) := FrontMatterParts(text).value;
      text == Marker + fm + Marker + body && !Contains(fm + "--", Marker)
  {
    var rest := text[3..];
    SplitAtLeadingMarker(text);
    SplitOnce(rest);
    var j := Find(rest, Marker).value;
    assert FrontMatterParts(text).value == (rest[..j], rest[j + 3..]);
    FindSplits(rest, Marker);
    assert Marker[..2] == "--";
    assert text == Marker + rest;
  }

  /** The two lemmas above together: splitting and building are inverse. */
  lemma FrontMatterPartsSpec(text: string, fm: string, body: string)
    ensures FrontMatterParts(text) == Some((fm, body)) <==>
      text == Marker + fm + Marker + body && !Contains(fm + "--", Marker)
  {
    if text == Marker + fm + Marker + body && !Contains(fm + "--", Marker) {
      FrontMatterPartsOf(fm, body);
    }
    if FrontMatterParts(text).Some? {
      FrontMatterPartsShape(text);
    }
  }

  /** Without the leading marker, or without a second one, there is no front
      matter. */
  lemma FrontMatterPartsNone(text: string)
    ensures FrontMatterParts(text).None? <==>
      !StartsWith(text, Marker) || !Contains(text[3..], Marker)
  {
    if StartsWith(text, Marker) {
      SplitAtLeadingMarker(text);
      SplitOnce(text[3..]);
    }
  }

  /** The first part of `Post._parse`: the metadata and the content before
      the defaults are applied. A `ValueError` from the unpacking or from
      YAML leaves the metadata empty and the whole text as content; any other
      YAML error propagates; a loaded value that is truthy but not a mapping
      makes the later `in` / item assignment raise `TypeError`. */
  function ReadFrontMatter(text: string, c: Codecs): Result<(Metadata, string)> {
    match FrontMatterParts(text)
    case None => Ok((map[], text))
    case Some((fm, body)) =>
      match c.yamlLoad(fm)
      case RaisedValueError => Ok((map[], text))
      case RaisedOther => Err(YamlFailure)
      case Loaded(v) =>
        match AsMetadata(v)
        case None => Err(NotAMapping)
        case Some(m) => Ok((m, Strip(body)))
  }

  /** The defaults of `Post._parse`: `published` is true when absent, `date`
      is the clock's "now" when absent, and a string `date` is parsed as
      `YYYY-MM-DD`, its failure propagating. Nothing else changes. */
  function ApplyDefaults(m: Metadata, now: DateTime): (r: Result<Metadata>)
    ensures r.Ok? ==> r.value.Keys == m.Keys + {"published", "date"}
    ensures r.Ok? ==> forall k :: k in m && k != "date" ==> r.value[k] == m[k]
    ensures r.Ok? && "published" !in m ==> r.value["published"] == VBool(true)
    ensures r.Ok? && "date" !in m ==> r.value["date"] == VDate(now)
    ensures "date" in m && m["date"].VStr? ==>
      match ParseDate(m["date"].s)
      case Ok(t) => r.Ok? && r.value["date"] == VDate(t)
      case Err(e) => r == Err(e)
    ensures "date" in m && !m["date"].VStr? ==> r.Ok? && r.value["date"] == m["date"]
    ensures r.Err? <==> "date" in m && m["date"].VStr? && ParseDate(m["date"].s).Err?
  {
    var m1 := if "published" in m then m else m["published" := VBool(true)];
    if "date" !in m1 then
      Ok(m1["date" := VDate(now)])
    else
      match m1["date"]
      case VStr(s) =>
        (match ParseDate(s)
         case Ok(t) => Ok(m1["date" := VDate(t)])
         case Err(e) => Err(e))
      case _ => Ok(m1)
  }

  /** Metadata after the defaults has both keys, and a date that is no
      longer a string. */
  predicate Defaulted(m: Metadata) {
    "published" in m && "date" in m && !m["date"].VStr?
  }

  /** The defaults establish `Defaulted`, and applying them again changes
      nothing. */
  lemma ApplyDefaultsIdempotent(m: Metadata, now: DateTime, later: DateTime)
    requires ApplyDefaults(m, now).Ok?
    ensures Defaulted(ApplyDefaults(m, now).value)
    ensures ApplyDefaults(ApplyDefaults(m, now).value, later) == ApplyDefaults(m, now)
  {
    var m2 := ApplyDefaults(m, now).value;
    assert m2["published" := m2["published"]] == m2;
  }

  /** A post as `Post.__init__` leaves it. */
  datatype Post = Post(slug: string, metadata: Metadata, content: string, html: string)

  /** `Post(path)` for a file called `name` holding `text`. */
  function ParsePost(name: string, text: string, c: Codecs, now: DateTime): (r: Result<Post>)
    ensures r.Ok? ==> r.value.slug == Stem(name) && Defaulted(r.value.metadata)
    ensures r.Ok? ==> r.value.html == c.markdown(r.value.content)
  {
    match ReadFrontMatter(text, c)
    case Err(e) => Err(e)
    case Ok((m, content)) =>
      match ApplyDefaults(m, now)
      case Err(e) => Err(e)
      case Ok(m2) =>
        ApplyDefaultsIdempotent(m, now, now);
        Ok(Post(Stem(name), m2, content, c.markdown(content)))
  }

  /** `Post(path)`: `__init__` starts with empty metadata and content and
      `_parse` fills them in, then applies the defaults. */
  method NewPost(name: string, text: string, c: Codecs, now: DateTime) returns (r: Result<Post>)
    ensures r == ParsePost(name, text, c, now)
  {
    var slug := Stem(name);
    var metadata: Metadata := map[];
    var content := "";
    if StartsWith(text, Marker) {
      var parts := SplitN(text, Marker, 2);
      if |parts| == 3 {
        var loaded := c.yamlLoad(parts[1]);
        match loaded {
          case RaisedValueError =>
            content := text;
          case RaisedOther =>
            return Err(YamlFailure);
          case Loaded(v) =>
            var asMapping := AsMetadata(v);
            if asMapping.None? {
              return Err(NotAMapping);
            }
            metadata := asMapping.value;
            content := Strip(parts[2]);
        }
      } else {
        content := text;
      }
    } else {
      content := text;
    }
    var html := c.markdown(content);
    if "published" !in metadata {
      metadata := metadata["published" := VBool(true)];
    }
    if "date" !in metadata {
      metadata := metadata["date" := VDate(now)];
    } else if metadata["date"].VStr? {
      var parsed := ParseDate(metadata["date"].s);
      if parsed.Err? {
        return Err(parsed.error);
      }
      metadata := metadata["date" := VDate(parsed.value)];
    }
    return Ok(Post(slug, metadata, content, html));
  }

  /** The ways `Post(path)` fails, and no others: YAML raising something
      other than `ValueError`, YAML loading a truthy value that is not a
      mapping, and a string date `strptime` refuses. */
  lemma ParsePostFails(name: string, text: string, c: Codecs, now: DateTime)
    ensures var r := ParsePost(name, text, c, now);
      var parts := FrontMatterParts(text);
      var loaded := if parts.Some? then Some(c.yamlLoad(parts.value.0)) else None;
      var read := ReadFrontMatter(text, c);
      && (r == Err(YamlFailure) <==> loaded == Some(RaisedOther))
      && (r == Err(NotAMapping) <==> loaded.Some? && loaded.value.Loaded? && AsMetadata(loaded.value.value).None?)
      && (r.Err? && r.error.BadDate? <==>
            read.Ok? && "date" in read.value.0 && read.value.0["date"].VStr?
            && ParseDate(read.value.0["date"].s).Err?)
      && (r.Err? ==> r.error.YamlFailure? || r.error.NotAMapping? || r.error.BadDate?)
  {
  }

  /** With well-formed front matter that loads as a mapping (or as nothing),
      the post's metadata is that mapping with the defaults applied, and its
      content is the stripped body, later markers included. */
  lemma ParsePostWithFrontMatter(name: string, fm: string, body: string, m: Metadata, c: Codecs, now: DateTime)
    requires !Contains(fm + "--", Marker)
    requires c.yamlLoad(fm).Loaded? && AsMetadata(c.yamlLoad(fm).value) == Some(m)
    ensures var r := ParsePost(name, Marker + fm + Marker + body, c, now);
      && (r.Ok? <==> ApplyDefaults(m, now).Ok?)
      && (r.Ok? ==> r.value.metadata == ApplyDefaults(m, now).value && r.value.content == Strip(body))
  {
    FrontMatterPartsOf(fm, body);
    assert ReadFrontMatter(Marker + fm + Marker + body, c) == Ok((m, Strip(body)));
  }

  /** Without front matter (no leading marker, or no second one), the whole
      text is the content and the metadata holds the two defaults only. */
  lemma ParsePostWithoutFrontMatter(name: string, text: string, c: Codecs, now: DateTime)
    requires !StartsWith(text, Marker) || !Contains(text[3..], Marker)
    ensures ParsePost(name, text, c, now)
      == Ok(Post(Stem(name), map["published" := VBool(true), "date" := VDate(now)], text, c.markdown(text)))
  {
    FrontMatterPartsNone(text);
  }

  /** A YAML `ValueError` in the front matter is swallowed like a failed
      unpacking: the whole text, markers included, becomes the content. */
  lemma ParsePostYamlValueError(name: string, fm: string, body: string, c: Codecs, now: DateTime)
    requires !Contains(fm + "--", Marker) && c.yamlLoad(fm) == RaisedValueError
    ensures var text := Marker + fm + Marker + body;
      ParsePost(name, text, c, now)
        == Ok(Post(Stem(name), map["published" := VBool(true), "date" := VDate(now)], text, c.markdown(text)))
  {
    FrontMatterPartsOf(fm, body);
  }

  /** `Post.title`'s fallback: the slug with hyphens as spaces, title-cased. */
  function SlugTitle(slug: string): string {
    TitleCase(ReplaceChar(slug, '-', ' '))
  }

  /** `Post.title`: an explicit `title` wins, whatever its type. */
  function Title(p: Post): Value {
    if "title" in p.metadata then p.metadata["title"] else VStr(SlugTitle(p.slug))
  }

  /** The slug title has the slug's length and no hyphen; a hyphen becomes a
      space, a letter that starts a word is upper-cased and any other letter
      lower-cased. */
  lemma SlugTitleShape(slug: string)
    ensures |SlugTitle(slug)| == |slug|
    ensures forall i :: 0 <= i < |slug| ==> SlugTitle(slug)[i] != '-'
    ensures forall i :: 0 <= i < |slug| && slug[i] == '-' ==> SlugTitle(slug)[i] == ' '
    ensures forall i :: 0 <= i < |slug| && slug[i] != '-' && (i == 0 || !IsCased(slug[i - 1])) ==>
      SlugTitle(slug)[i] == Upper(slug[i])
    ensures forall i :: 0 < i < |slug| && slug[i] != '-' && IsCased(slug[i - 1]) ==>
      SlugTitle(slug)[i] == Lower(slug[i])
  {
    var s := ReplaceChar(slug, '-', ' ');
    forall j | 0 <= j < |slug| ensures IsCased(s[j]) == IsCased(slug[j]) {
    }
  }

  /** `Post.date`: `None` when absent. */
  function Date(p: Post): Value {
    if "date" in p.metadata then p.metadata["date"] else VNull
  }

  /** `Post.published`: true when absent. */
  function Published(p: Post): Value {
    if "published" in p.metadata then p.metadata["published"] else VBool(true)
  }

  predicate IsPublished(p: Post) {
    Truthy(Published(p))
  }

  /** `Post.url`. */
  function Url(baseUrl: string, slug: string): string {
    baseUrl + "/writing/" + slug + "/"
  }

  /** Under one base URL, different slugs get different URLs. */
  lemma UrlInjective(baseUrl: string, s1: string, s2: string)
    ensures Url(baseUrl, s1) == Url(baseUrl, s2) <==> s1 == s2
  {
    var u1, u2 := Url(baseUrl, s1), Url(baseUrl, s2);
    if u1 == u2 {
      var n := |baseUrl| + 9;
      assert |s1| == |s2|;
      assert u1[n..n + |s1|] == s1;
      assert u2[n..n + |s2|] == s2;
    }
  }

  /** The body `_generate_about` renders: the stripped body after the front
      matter, or the whole text. */
  function AboutBody(raw: string): string {
    match FrontMatterParts(raw)
    case Some((_, body)) => Strip(body)
    case None => raw
  }

  /** The about page extracts the body as a post does, except that it never
      loads the YAML: where YAML raises `ValueError`, a post keeps the whole
      text but the about page still strips the front matter. */
  lemma AboutBodyAgreesWithPost(raw: string, c: Codecs)
    ensures FrontMatterParts(raw).None? ==> ReadFrontMatter(raw, c) == Ok((map[], AboutBody(raw)))
    ensures (FrontMatterParts(raw).Some? && c.yamlLoad(FrontMatterParts(raw).value.0).Loaded?
             && ReadFrontMatter(raw, c).Ok?) ==> ReadFrontMatter(raw, c).value.1 == AboutBody(raw)
    ensures FrontMatterParts(raw).Some? && c.yamlLoad(FrontMatterParts(raw).value.0).RaisedValueError? ==>
      ReadFrontMatter(raw, c) == Ok((map[], raw)) && AboutBody(raw) == Strip(FrontMatterParts(raw).value.1)
  {
  }
}
