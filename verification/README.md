# Brace Industries site generator: content pipeline in Dafny

This project models the content pipeline of `build.py`, the static site
generator of the Brace Industries site. It covers these steps:

- **Reading a post** (`Post._parse`). Front matter is cut off with
  `text.split('---', 2)`, loaded as YAML, and falls back to "the whole text
  is the content". The defaults for `published` and `date` are applied. A
  string date is parsed with `strptime('%Y-%m-%d')`.
- **Derived values.** The title comes from the slug when there is none, and
  the `date`, `published` and `url` properties are derived.
- **Loading** (`SiteGenerator.load_posts`). One loop over the Markdown files
  keeps the published posts, then a stable sort puts the newest first.
- **Pages** (`build` and the `_generate_*` methods). The build empties the
  output directory, loads the posts and runs the page generators over the
  loaded list. The home page receives the first five posts. The writing index
  and the feed receive all of them. Each post has a page under
  `docs/writing/<slug>/index.html`. The about page renders the about file's
  body without its front matter.
- **Publishing** (`publish`). The draft is moved into the posts directory,
  and its front matter is rewritten with `published: true` and a date.

YAML loading and dumping and Markdown conversion are foreign libraries.
They enter the model as functions inside a `Codecs` value, so every result
holds for any YAML or Markdown implementation. The clock is a `now`
parameter. The posts directory is a sequence of (name, text) entries in
enumeration order, and the working tree that `publish` changes is a map from
path to text.

Python behaviour is written out where the code depends on it:

- `str.split` with `maxsplit`, `str.strip` with Python's whitespace set,
  `str.title`, `str.replace` and `PurePath.stem` (module `PyStr`);
- the `%Y-%m-%d` grammar of `strptime`, including one-digit and
  space-padded fields and the calendar check, and `strftime` (module
  `Dates`);
- truthiness of loaded values, and `or {}` followed by use as a dictionary
  (module `Meta`);
- the stable `sort(key=..., reverse=True)` (module `Loader`).

Modules:

| file | module | models |
|---|---|---|
| common.dfy | Common | `Option`, `Result` and the errors that escape |
| pystr.dfy | PyStr | the Python string operations listed above |
| dates.dfy | Dates | naive `datetime`, its order, `strptime` / `strftime` |
| metadata.dfy | Meta | front-matter values, truthiness, the foreign codecs |
| posts.dfy | Posts | `Post`: front-matter split, defaults, title, date, published, url, about body |
| loader.dfy | Loader | what `load_posts` computes, and the sort |
| pages.dfy | Pages | the home slice and the pages a build writes |
| generator.dfy | Generator | class `SiteGenerator`: `load_posts`, the page generators and `build` as methods |
| publish.dfy | Publish | `publish` as a method of class `Workspace` over a map of files |

## Model

| member | source | states |
|---|---|---|
| PyStr.Strip | build.py:59 | `strip()`: `lstrip()` then `rstrip()` over Python's whitespace set (its properties are `StripSpec`) |
| PyStr.StripSpec | build.py:59 | `strip()` leaves a contiguous slice of the input that neither starts nor ends with whitespace, and everything it removed is whitespace |
| PyStr.StripSkipsLeadingSpace | build.py:59 | a leading whitespace character makes no difference to `strip()` |
| PyStr.Find | build.py:57 | the first occurrence of the marker, or none; a found occurrence fits inside the text |
| PyStr.FindSpec | build.py:57 | the marker search finds the leftmost occurrence, or reports that there is none |
| PyStr.ContainsSpec | build.py:57 | `sep in s` holds exactly when `sep` occurs somewhere in `s` |
| PyStr.FindAfter | build.py:57 | in `a + sep + b`, the first `sep` is the one after `a` when no `sep` starts inside `a` |
| PyStr.SplitN | build.py:57 | `split(sep, maxsplit)` yields between one and `maxsplit + 1` parts |
| PyStr.SplitNJoin | build.py:57 | joining the parts of `split(sep, n)` with `sep` gives back the text |
| PyStr.SplitNCutsLeftmost | build.py:57 | every cut is at the leftmost remaining occurrence: no occurrence of `sep` starts inside a part but the last, not even one running into the `sep` after it, and the last part contains `sep` only when all `n` cuts were made |
| PyStr.SplitNUnique | build.py:57 | conversely, parts that join back to the text, number at most `n + 1` and are cut at leftmost occurrences are exactly what `split(sep, n)` returns |
| PyStr.ReplaceChar | build.py:79 | `replace('-', ' ')` keeps the length and changes exactly the hyphens |
| PyStr.TitleCase | build.py:79 | `title()` keeps the length; a cased letter is upper-cased when it starts a word and lower-cased otherwise |
| PyStr.Stem | build.py:43 | `PurePath.stem` is a prefix of the name: the name without its last suffix |
| PyStr.RFind | build.py:43 | the last position of a character, or none |
| PyStr.MarkdownStem | build.py:43 | the stem of `name.md` is `name`; the name `.md` is its own stem |
| Dates.NotAfterTotalOrder | build.py:113 | datetimes compare by a total order: reflexive, total, antisymmetric, transitive |
| Dates.ParseDate | build.py:75 | `strptime(s, '%Y-%m-%d')` yields a valid date at midnight, or raises `ValueError` naming `s` |
| Dates.ParseDateShape | build.py:75 | every accepted text is the four-digit year, '-', the month as two zero-padded digits (or one digit below 10), '-', and the day as two zero-padded digits (or, below 10, one digit or a space and a digit) |
| Dates.ParseDateOfSpelling | build.py:75 | conversely, every such spelling of a real day parses to that day at midnight |
| Dates.FormatDate | build.py:294 | `strftime('%Y-%m-%d')` writes ten characters: digits, with hyphens at positions 4 and 7 |
| Dates.ParseFormatDate | build.py:294 | parsing the date that publishing writes gives back the day at midnight |
| Dates.ParseDateShortFields | build.py:75 | one-digit months and days, and a day written as a space and a digit, are accepted |
| Dates.ParseDateRejectsDays | build.py:75 | a day the month does not have, or text after the day, is rejected |
| Dates.ParseDateRejectsMonthAndYear | build.py:75 | a thirteenth month and the year 0 are rejected |
| Meta.AsMetadata | build.py:58 | `or {}` used as a dictionary succeeds exactly for falsy values and mappings; a falsy value gives the empty mapping and a non-empty mapping is used as it is |
| Posts.FrontMatterParts | build.py:55-57 | `startswith('---')` then three-way unpacking of `split('---', 2)`: the block and the body, only for a text that starts with the marker |
| Posts.FrontMatterPartsOf | build.py:55-57 | marker, block, marker, body splits back into block and body when no marker starts inside the block |
| Posts.FrontMatterPartsShape | build.py:55-57 | whatever splits is marker, block, marker, body, with the block strictly between the first two markers and later markers left in the body |
| Posts.FrontMatterPartsSpec | build.py:55-57 | splitting and building are inverse (if and only if) |
| Posts.FrontMatterPartsNone | build.py:55-63 | there is no front matter exactly when the text does not start with the marker or has no second marker |
| Posts.ReadFrontMatter | build.py:55-63 | the metadata and content before the defaults: none and the whole text without front matter or on a YAML `ValueError`; an error for any other YAML error or a truthy non-mapping; otherwise the mapping and the stripped body |
| Posts.ApplyDefaults | build.py:69-75 | `published` becomes true when absent; `date` becomes now when absent; a string date is parsed and its error propagates; any other date and every other key are kept; it fails exactly when the date is a string `strptime` refuses |
| Posts.ApplyDefaultsIdempotent | build.py:69-75 | the defaults leave both keys present with a non-string date, and applying them again changes nothing |
| Posts.ParsePost | build.py:41-75 | a parsed post has the file's stem as slug, defaulted metadata, and the Markdown of its content as HTML |
| Posts.NewPost | build.py:41-75 | `Post(path)`, filling metadata and content step by step, ends as `ParsePost` describes |
| Posts.ParsePostWithFrontMatter | build.py:55-75 | with front matter that loads as a mapping, the post's metadata is that mapping with the defaults, and its content is the stripped body, later markers included |
| Posts.ParsePostWithoutFrontMatter | build.py:55-75 | without front matter, the content is the whole text and the metadata holds only the defaults |
| Posts.ParsePostYamlValueError | build.py:56-61 | a YAML `ValueError` is swallowed: the whole text becomes the content and the metadata holds only the defaults |
| Posts.ParsePostFails | build.py:49-75 | `Post(path)` fails exactly on a YAML error other than `ValueError`, on a truthy loaded value that is not a mapping, and on a string date `strptime` refuses, each with its own error, and in no other way |
| Posts.SlugTitle | build.py:79 | the fallback title: hyphens replaced by spaces, then `title()` |
| Posts.Title | build.py:77-79 | `post.title`: the `title` entry, whatever its type, else the slug title |
| Posts.SlugTitleShape | build.py:77-79 | the slug title has the slug's length and no hyphen; hyphens become spaces and every word is capitalised |
| Posts.Date | build.py:81-83 | `post.date`: the `date` entry, or `None` |
| Posts.Published | build.py:85-87 | `post.published`: the `published` entry, or true |
| Posts.IsPublished | build.py:109 | `if post.published` tests the truthiness of that value |
| Posts.Url | build.py:89-91 | `post.url`: the base URL, `/writing/`, the slug and `/` |
| Posts.UrlInjective | build.py:89-91 | under one base URL, two slugs give the same URL exactly when they are equal |
| Posts.AboutBody | build.py:196-199 | the about file's body: stripped after the front matter when it splits, else the whole text |
| Posts.AboutBodyAgreesWithPost | build.py:196-199 | the about page extracts the body as a post does, except that it never looks at the YAML |
| Loader.ParseAll | build.py:106-108 | every Markdown file parsed in enumeration order, or the first error |
| Loader.PublishedOnly | build.py:108-110 | the kept posts are exactly the published ones, and none is kept twice |
| Loader.Scan | build.py:106-110 | what the loop has collected after a prefix of the files, and the error that stopped it |
| Loader.ScanIsPublishedOnly | build.py:106-110 | the loading loop collects exactly the published posts in file order when every file parses, and stops with the first error otherwise |
| Loader.ScanStops | build.py:107-110 | once a file fails to parse, later files change nothing |
| Loader.Insert | build.py:113 | inserting a post adds exactly that post |
| Loader.SortDesc | build.py:113 | the sort is a permutation |
| Loader.SortDescSorted | build.py:113 | the sorted list is newest first |
| Loader.SortDescStable | build.py:113 | posts with the same date keep their input order |
| Loader.LoadOutcome | build.py:101-113 | the outcome and list of `load_posts`: empty for a missing directory, the first parse error, `IncomparableDates` when the sort cannot compare, else the sorted published posts |
| Loader.LoadSucceeds | build.py:101-113 | after a successful load, the list is a permutation of the published posts, every post in it is published, it is sorted newest first, and it is stable |
| Loader.LoadFails | build.py:101-113 | loading fails exactly when a Markdown file fails to parse (with the first error), or when two or more published posts include one whose date a sort cannot compare |
| Pages.HomePosts | build.py:152 | the home page lists the first `min(5, n)` posts, in order |
| Pages.HomeShowsNewest | build.py:152 | after a load, the home page lists a prefix of the loaded list: published posts, `min(5, n)` of them, none older than a post left out |
| Pages.PostPagePath | build.py:179-181 | a post's page goes to `docs/writing/<slug>/index.html` |
| Pages.PostPageAtUrl | build.py:179-181 | a post's page is written at the URL's path under `docs`, as `index.html` |
| Pages.PostPagePathInjective | build.py:179-181 | different slugs get different page paths |
| Pages.PostPages | build.py:174-182 | the pages the loop writes, one per post in list order, a later post replacing an earlier one on the same path |
| Pages.PostPagesKeys | build.py:172-183 | there is a page for every post and for nothing else |
| Pages.PostPagesValues | build.py:172-183 | every post page shows one of the posts, at that post's path |
| Pages.PostPagesLastWins | build.py:176-182 | a post whose slug no later post shares keeps its own page |
| Pages.AboutHtml | build.py:188-205 | without an about file the about content is empty |
| Pages.SiteOutput | build.py:115-144 | the pages of a whole build, in the order `build` writes them |
| Pages.SiteOutputKeys | build.py:115-144 | a build writes the four fixed pages and one page per post path, and nothing else |
| Pages.SiteOutputPages | build.py:115-144 | the home page gets the first five posts, the writing index and the feed every post, the about page the about HTML: no post page lands on a fixed path |
| Pages.SiteOutputPostPages | build.py:137-144 | every post page of a build is the one `_generate_posts` wrote |
| Generator.SiteGenerator.LoadPosts | build.py:101-113 | the loop leaves `posts` and the outcome as `LoadOutcome` describes, and leaves the output alone |
| Generator.SiteGenerator.GenerateHome | build.py:149-157 | the home page gets the first five posts |
| Generator.SiteGenerator.GenerateWritingIndex | build.py:160-169 | the writing index gets every post |
| Generator.SiteGenerator.GeneratePosts | build.py:172-183 | the loop writes exactly the post pages, later posts replacing earlier ones on the same path |
| Generator.SiteGenerator.GenerateAbout | build.py:185-210 | the about page gets the Markdown of the about file's body |
| Generator.SiteGenerator.GenerateRss | build.py:239-247 | the feed gets every post |
| Generator.SiteGenerator.Build | build.py:115-144 | after a successful load the output holds exactly the build's pages for the loaded list; a failed load leaves it empty |
| Publish.DraftPathIsNotPostPath | build.py:265-276 | the draft and its published copy never share a path |
| Publish.UpdateFrontMatter | build.py:289-294 | `published` becomes true; an existing `date` is kept; a missing one is added as today's `YYYY-MM-DD`, which parses back; every other key is kept |
| Publish.RewriteText | build.py:286-298 | the text written over the moved file: none exactly when there is no front matter, else it starts with the marker; any YAML error escapes |
| Publish.PublishEffect | build.py:263-302 | the files and outcome of `publish`: the draft is missing exactly when nothing happens |
| Publish.PublishFrame | build.py:263-276 | a missing draft changes nothing; otherwise the draft's path is gone, the post's path holds the draft, a failure leaves it unrewritten, and every other path is untouched |
| Publish.PublishKeepsBody | build.py:286-298 | a completed publish writes the new front matter followed by the body after the second marker, character for character of the text as read, or leaves a file without front matter as it was |
| Publish.DefaultsOfUpdated | build.py:289-294 | the rewritten front matter, with the defaults applied, is published, keeps the title, and keeps the date (or has today at midnight) |
| Publish.ReparseRewritten | build.py:296 | the rewritten file read back is a published post with the draft's content, title and date, provided the YAML dump loads back as the mapping that was dumped and holds no marker |
| Publish.PublishThenLoad | build.py:263-302 | publishing a draft and loading the result gives a published post with the draft's content, title and date, under the same condition on the YAML dump |
| Publish.Workspace.Publish | build.py:263-302 | the method's effect on the files and its outcome are those of `PublishEffect` |

## Left out

- YAML parsing and dumping and Markdown conversion are not modelled. They are functions supplied in `Codecs`. Facts about them (a dump that loads back as the same mapping and contains no `---`) are hypotheses of the lemmas that need them.
- Jinja templates, rendering and the page HTML are not modelled. A page is recorded as the values its template receives.
- The projects and contact pages are not modelled. They hold no logic beyond loading `projects.yaml`.
- The feed's `build_date` is not modelled.
- The base URL passed to templates is not modelled.
- File-system effects other than the files' text are not modelled: `mkdir`, `copytree` of the static files, the CNAME file, and directories named `*.md`. Emptying the output directory is modelled as emptying the map of pages. Path normalisation and aliasing are also out: a slug such as `.`, which `Path` would collapse, and a file name containing `/`.
- The order in which `glob` enumerates files is an input, not a rule.
- `Post.html_content` is the Markdown of the content. The model computes it even when the defaults fail, because the error is the only observable result then.
- Publish: the rebuild after publishing is reported as `RebuildRequested` and not performed.
- Publish: the `print` messages are not modelled.
- Publish: the parsed `Post` is used only for the errors it raises.
- The same `now` serves both clock readings in `publish`.
- Loader.Scan: one clock reading serves every post of a load. `_parse` reads the clock once per post (build.py:73), so two undated posts get slightly different times and the newer-read one sorts first; here they tie and keep file order.
- Files are read and written in text mode as UTF-8 with universal newlines. The model works on the decoded text: a `\r\n` in the file is already `\n`, and a file that is not valid UTF-8 (which raises `UnicodeDecodeError`) is not modelled.
- PyStr.IsCased: only ASCII letters have case here, so `title()` leaves other letters unchanged and treats them as word breaks. Python cases every Unicode letter. `PyStr.Upper` and `PyStr.Lower` are ASCII-only for the same reason.
- Dates.ParseDate accepts ASCII digits only. `strptime` also accepts other Unicode decimal digits.
- Dates.FormatDate zero-pads years below 1000, where the C library's `strftime` may not. The clock is assumed to lie in years 1000 to 9999.
- Meta.Value maps YAML dates and timestamps both to a `datetime`. The distinction between `date` and `datetime` is not kept, so comparing a `date` with a `datetime` in the sort is not modelled as the `TypeError` it is.
- Loader.LoadOutcome: with two or more posts, sorting succeeds only when every date is a `datetime`. Python would also sort lists whose dates are all mutually comparable of another kind (all integers, all strings), and such a list is reported as `IncomparableDates` here.
- Loader.LoadOutcome: when the sort fails, Python may leave the list partly sorted. The model reports the unsorted list.
- Metadata keys are strings. YAML mappings with other key types are not modelled.
