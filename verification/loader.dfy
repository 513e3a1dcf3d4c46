/** `SiteGenerator.load_posts`: parse every Markdown file of the posts
    directory in enumeration order, keep the published posts, and sort them
    newest first with Python's stable `sort(key=date, reverse=True)`. */
module Loader {
  import opened Common
  import opened PyStr
  import opened Dates
  import opened Meta
  import opened Posts

  /** A directory entry: its file name and its text. */
  datatype SourceFile = SourceFile(name: string, text: string)

  /** `glob('*.md')` keeps the names ending in ".md". */
  predicate IsMarkdownName(name: string) {
    EndsWith(name, ".md")
  }

  /** Every Markdown file parsed, in enumeration order, or the error of the
      first one that fails. */
  function ParseAll(files: seq<SourceFile>, c: Codecs, now: DateTime): Result<seq<Post>> {
    if files == [] then
      Ok([])
    else
      var f := files[|files| - 1];
      match ParseAll(files[..|files| - 1], c, now)
      case Err(e) => Err(e)
      case Ok(ps) =>
        if !IsMarkdownName(f.name) then Ok(ps)
        else
          match ParsePost(f.name, f.text, c, now)
          case Err(e) => Err(e)
          case Ok(p) => Ok(ps + [p])
  }

  /** The published posts, in their order. */
  function PublishedOnly(ps: seq<Post>): (r: seq<Post>)
    ensures forall p :: p in r <==> p in ps && IsPublished(p)
    ensures multiset(r) <= multiset(ps)
  {
    if ps == [] then
      []
    else
      var init := PublishedOnly(ps[..|ps| - 1]);
      assert ps == ps[..|ps| - 1] + [ps[|ps| - 1]];
      if IsPublished(ps[|ps| - 1]) then init + [ps[|ps| - 1]] else init
  }

  /** What the loop of `load_posts` has appended to `self.posts` after the
      given files, and the error that stopped it, if one did. */
  function Scan(files: seq<SourceFile>, c: Codecs, now: DateTime): (seq<Post>, Option<Error>) {
    if files == [] then
      ([], None)
    else
      var f := files[|files| - 1];
      var (ps, err) := Scan(files[..|files| - 1], c, now);
      if err.Some? || !IsMarkdownName(f.name) then
        (ps, err)
      else
        match ParsePost(f.name, f.text, c, now)
        case Err(e) => (ps, Some(e))
        case Ok(p) => if IsPublished(p) then (ps + [p], None) else (ps, None)
  }

  /** The loop collects exactly the published posts when every file parses,
      and stops with the first error otherwise. */
  lemma {:induction false} ScanIsPublishedOnly(files: seq<SourceFile>, c: Codecs, now: DateTime)
    ensures ParseAll(files, c, now).Ok? ==>
      Scan(files, c, now) == (PublishedOnly(ParseAll(files, c, now).value), None)
    ensures ParseAll(files, c, now).Err? ==>
      Scan(files, c, now).1 == Some(ParseAll(files, c, now).error)
  {
    if files != [] {
      var init := files[..|files| - 1];
      ScanIsPublishedOnly(init, c, now);
      if ParseAll(init, c, now).Ok? && ParseAll(files, c, now).Ok? {
        var ps := ParseAll(init, c, now).value;
        var all := ParseAll(files, c, now).value;
        if all != ps {
          assert all[..|all| - 1] == ps;
        }
      }
    }
  }

  /** Once the loop has stopped with an error, later files change nothing. */
  lemma {:induction false} ScanStops(files: seq<SourceFile>, k: nat, c: Codecs, now: DateTime)
    requires k <= |files| && Scan(files[..k], c, now).1.Some?
    ensures Scan(files, c, now) == Scan(files[..k], c, now)
    decreases |files|
  {
    if k < |files| {
      var init := files[..|files| - 1];
      assert init[..k] == files[..k];
      ScanStops(init, k, c, now);
    } else {
      assert files[..k] == files;
    }
  }

  /** Every post carries a date a sort can compare. */
  predicate AllDated(ps: seq<Post>) {
    forall i :: 0 <= i < |ps| ==> Date(ps[i]).VDate?
  }

  function Key(p: Post): DateTime
    requires Date(p).VDate?
  {
    Date(p).t
  }

  /** Newest first: no post is older than one after it. */
  predicate SortedDesc(ps: seq<Post>)
    requires AllDated(ps)
  {
    forall i, j :: 0 <= i < j < |ps| ==> NotAfter(Key(ps[j]), Key(ps[i]))
  }

  /** No post is older than the one just after it. */
  predicate AdjacentDesc(ps: seq<Post>)
    requires AllDated(ps)
  {
    forall i :: 0 < i < |ps| ==> NotAfter(Key(ps[i]), Key(ps[i - 1]))
  }

  lemma {:induction false} AdjacentDescSorted(ps: seq<Post>)
    requires AllDated(ps) && AdjacentDesc(ps)
    ensures SortedDesc(ps)
    decreases |ps|
  {
    if |ps| >= 2 {
      var tail := ps[1..];
      AdjacentDescSorted(tail);
      forall i, j | 0 <= i < j < |ps| ensures NotAfter(Key(ps[j]), Key(ps[i])) {
        if i == 0 && j > 1 {
          assert tail[j - 1] == ps[j] && tail[0] == ps[1];
          NotAfterTotalOrder(Key(ps[j]), Key(ps[1]), Key(ps[0]));
        } else if i > 0 {
          assert tail[j - 1] == ps[j] && tail[i - 1] == ps[i];
        }
      }
    }
  }

  /** The posts dated `d`, in their order. */
  function WithDate(ps: seq<Post>, d: DateTime): seq<Post>
    requires AllDated(ps)
  {
    if ps == [] then []
    else (if Key(ps[0]) == d then [ps[0]] else []) + WithDate(ps[1..], d)
  }

  /** `p` placed before the first post that is not newer than it. */
  function Insert(p: Post, ps: seq<Post>): (r: seq<Post>)
    requires Date(p).VDate? && AllDated(ps)
    ensures AllDated(r) && multiset(r) == multiset(ps) + multiset{p}
    ensures r[0] == p || (ps != [] && r[0] == ps[0])
  {
    if ps == [] then
      [p]
    else if NotAfter(Key(ps[0]), Key(p)) then
      [p] + ps
    else
      assert ps == [ps[0]] + ps[1..];
      [ps[0]] + Insert(p, ps[1..])
  }

  /** `sort(key=date, reverse=True)`. */
  function SortDesc(ps: seq<Post>): (r: seq<Post>)
    requires AllDated(ps)
    ensures AllDated(r) && multiset(r) == multiset(ps)
  {
    if ps == [] then
      []
    else
      assert ps == [ps[0]] + ps[1..];
      Insert(ps[0], SortDesc(ps[1..]))
  }

  lemma {:induction false} InsertAdjacent(p: Post, ps: seq<Post>)
    requires Date(p).VDate? && AllDated(ps) && AdjacentDesc(ps)
    ensures AdjacentDesc(Insert(p, ps))
    decreases |ps|
  {
    if ps != [] && !NotAfter(Key(ps[0]), Key(p)) {
      var tail := ps[1..];
      InsertAdjacent(p, tail);
      var rest := Insert(p, tail);
      var r := [ps[0]] + rest;
      assert NotAfter(Key(rest[0]), Key(ps[0])) by {
        NotAfterTotalOrder(Key(p), Key(ps[0]), Key(ps[0]));
      }
      forall i | 1 < i < |r| ensures NotAfter(Key(r[i]), Key(r[i - 1])) {
        assert r[i] == rest[i - 1] && r[i - 1] == rest[i - 2];
      }
    }
  }

  /** The result is sorted newest first. */
  lemma {:induction false} SortDescSorted(ps: seq<Post>)
    requires AllDated(ps)
    ensures SortedDesc(SortDesc(ps))
  {
    SortDescAdjacent(ps);
    AdjacentDescSorted(SortDesc(ps));
  }

  lemma {:induction false} SortDescAdjacent(ps: seq<Post>)
    requires AllDated(ps)
    ensures AdjacentDesc(SortDesc(ps))
  {
    if ps != [] {
      SortDescAdjacent(ps[1..]);
      InsertAdjacent(ps[0], SortDesc(ps[1..]));
    }
  }

  /** Inserting puts `p` first among the posts of its date and leaves the
      others' order alone. */
  lemma {:induction false} InsertWithDate(p: Post, ps: seq<Post>, d: DateTime)
    requires Date(p).VDate? && AllDated(ps)
    ensures WithDate(Insert(p, ps), d) == (if Key(p) == d then [p] else []) + WithDate(ps, d)
    decreases |ps|
  {
    var r := Insert(p, ps);
    if ps != [] && !NotAfter(Key(ps[0]), Key(p)) {
      InsertWithDate(p, ps[1..], d);
      assert r[1..] == Insert(p, ps[1..]);
      assert Key(ps[0]) != Key(p) by {
        NotAfterTotalOrder(Key(p), Key(ps[0]), Key(p));
      }
    } else if ps != [] {
      assert r[1..] == ps;
    }
  }

  /** Stability: the posts of any one date come out in their input order. */
  lemma {:induction false} SortDescStable(ps: seq<Post>, d: DateTime)
    requires AllDated(ps)
    ensures WithDate(SortDesc(ps), d) == WithDate(ps, d)
  {
    if ps != [] {
      SortDescStable(ps[1..], d);
      InsertWithDate(ps[0], SortDesc(ps[1..]), d);
    }
  }

  /** `load_posts` with the posts directory's entries in enumeration order
      (`None` when the directory does not exist): the outcome and the list
      `self.posts` holds afterwards. A failing parse stops the loop with the
      posts collected so far; sorting two or more posts fails unless all
      their dates are datetimes. */
  function LoadOutcome(dir: Option<seq<SourceFile>>, c: Codecs, now: DateTime): (Result<()>, seq<Post>) {
    match dir
    case None => (Ok(()), [])
    case Some(files) =>
      var (ps, err) := Scan(files, c, now);
      if err.Some? then (Err(err.value), ps)
      else if |ps| < 2 then (Ok(()), ps)
      else if !AllDated(ps) then (Err(IncomparableDates), ps)
      else (Ok(()), SortDesc(ps))
  }

  /** When loading succeeds the list holds exactly the published posts (as a
      multiset), newest first, posts of equal date in enumeration order. */
  lemma LoadSucceeds(files: seq<SourceFile>, c: Codecs, now: DateTime)
    requires LoadOutcome(Some(files), c, now).0.Ok?
    ensures ParseAll(files, c, now).Ok?
    ensures var posts := LoadOutcome(Some(files), c, now).1;
      var published := PublishedOnly(ParseAll(files, c, now).value);
      && multiset(posts) == multiset(published)
      && (forall p :: p in posts ==> IsPublished(p))
      && (|posts| >= 2 ==>
            AllDated(posts) && AllDated(published) && SortedDesc(posts)
            && forall d :: WithDate(posts, d) == WithDate(published, d))
  {
    ScanIsPublishedOnly(files, c, now);
    var ps := Scan(files, c, now).0;
    assert ParseAll(files, c, now).Ok? && ps == PublishedOnly(ParseAll(files, c, now).value);
    var posts := LoadOutcome(Some(files), c, now).1;
    assert multiset(posts) == multiset(ps);
    forall p | p in posts ensures IsPublished(p) {
      assert p in multiset(posts);
    }
    if |ps| >= 2 {
      SortDescSorted(ps);
      forall d ensures WithDate(SortDesc(ps), d) == WithDate(ps, d) {
        SortDescStable(ps, d);
      }
    }
  }

  /** Loading fails exactly when some Markdown file fails to parse, with the
      first such error, or when two or more posts are published and one of
      them has a date a sort cannot compare. */
  lemma LoadFails(files: seq<SourceFile>, c: Codecs, now: DateTime)
    ensures ParseAll(files, c, now).Err? ==>
      LoadOutcome(Some(files), c, now).0 == Err(ParseAll(files, c, now).error)
    ensures ParseAll(files, c, now).Ok? ==>
      var published := PublishedOnly(ParseAll(files, c, now).value);
      LoadOutcome(Some(files), c, now).0 ==
        if |published| >= 2 && !AllDated(published) then Err(IncomparableDates) else Ok(())
  {
    ScanIsPublishedOnly(files, c, now);
  }
}
