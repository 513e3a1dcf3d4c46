/** The pieces of Python's `str` and `pathlib` behaviour that the generator
    relies on: `isspace`/`strip`, `find`, `split(sep, maxsplit)`, `replace`
    of one character, `title`, and `Path.stem`. */
module PyStr {
  import opened Common

  /** Python's `str.isspace()` for one character: the ASCII controls
      U+0009..U+000D and U+001C..U+001F, the space, and the Unicode
      separators U+0085, U+00A0, U+1680, U+2000..U+200A, U+2028, U+2029,
      U+202F, U+205F and U+3000. */
  predicate IsSpace(c: char) {
    var n := c as int;
    || 0x09 <= n <= 0x0D
    || 0x1C <= n <= 0x20
    || n == 0x85 || n == 0xA0 || n == 0x1680
    || 0x2000 <= n <= 0x200A
    || n == 0x2028 || n == 0x2029 || n == 0x202F || n == 0x205F || n == 0x3000
  }

  /** `s.lstrip()`: `s` without its leading whitespace. */
  function LStrip(s: string): string {
    if s != [] && IsSpace(s[0]) then LStrip(s[1..]) else s
  }

  /** `s.rstrip()`: `s` without its trailing whitespace. */
  function RStrip(s: string): string {
    if s != [] && IsSpace(s[|s| - 1]) then RStrip(s[..|s| - 1]) else s
  }

  /** `s.strip()`: `s` without its leading and trailing whitespace. */
  function Strip(s: string): string {
    RStrip(LStrip(s))
  }

  /** What `lstrip` keeps is a suffix of `s` that does not start with
      whitespace, and everything it cuts off is whitespace. */
  lemma {:induction false} LStripSpec(s: string)
    ensures |LStrip(s)| <= |s| && LStrip(s) == s[|s| - |LStrip(s)|..]
    ensures LStrip(s) == [] || !IsSpace(LStrip(s)[0])
    ensures forall k :: 0 <= k < |s| - |LStrip(s)| ==> IsSpace(s[k])
  {
    if s != [] && IsSpace(s[0]) {
      var r := LStrip(s[1..]);
      LStripSpec(s[1..]);
      assert LStrip(s) == r;
      assert s[1..][|s| - 1 - |r|..] == s[|s| - |r|..];
      forall k | 1 <= k < |s| - |r| ensures IsSpace(s[k]) {
        assert s[k] == s[1..][k - 1];
      }
    }
  }

  /** What `rstrip` keeps is a prefix of `s` that does not end with
      whitespace, and everything it cuts off is whitespace. */
  lemma {:induction false} RStripSpec(s: string)
    ensures |RStrip(s)| <= |s| && RStrip(s) == s[..|RStrip(s)|]
    ensures RStrip(s) == [] || !IsSpace(RStrip(s)[|RStrip(s)| - 1])
    ensures forall k :: |RStrip(s)| <= k < |s| ==> IsSpace(s[k])
  {
    if s != [] && IsSpace(s[|s| - 1]) {
      var r := RStrip(s[..|s| - 1]);
      RStripSpec(s[..|s| - 1]);
      assert RStrip(s) == r;
      assert s[..|s| - 1][..|r|] == s[..|r|];
      forall k | |r| <= k < |s| - 1 ensures IsSpace(s[k]) {
        assert s[k] == s[..|s| - 1][k];
      }
    }
  }

  /** `r` is the slice of `s` starting at `i`, with only whitespace before
      and after it. */
  ghost predicate TrimmedSlice(s: string, r: string, i: int) {
    && 0 <= i <= |s| - |r|
    && r == s[i..i + |r|]
    && (forall k :: 0 <= k < i ==> IsSpace(s[k]))
    && (forall k :: i + |r| <= k < |s| ==> IsSpace(s[k]))
  }

  /** What `strip` keeps is a slice of `s` that neither starts nor ends with
      whitespace, and everything it cuts off on either side is whitespace. */
  lemma StripSpec(s: string)
    ensures var r := Strip(s); r == [] || (!IsSpace(r[0]) && !IsSpace(r[|r| - 1]))
    ensures TrimmedSlice(s, Strip(s), |s| - |LStrip(s)|)
  {
    var l := LStrip(s);
    var r := RStrip(l);
    LStripSpec(s);
    RStripSpec(l);
    var i := |s| - |l|;
    assert r == s[i..i + |r|] by {
      assert l[..|r|] == s[i..][..|r|];
    }
    forall k | i + |r| <= k < |s| ensures IsSpace(s[k]) {
      assert s[k] == l[k - i];
    }
    if r != [] {
      assert r[0] == l[0];
    }
  }

  /** Whitespace in front of the text does not change what `strip` keeps. */
  lemma StripSkipsLeadingSpace(c: char, s: string)
    requires IsSpace(c)
    ensures Strip([c] + s) == Strip(s)
  {
    assert ([c] + s)[1..] == s;
  }

  predicate StartsWith(s: string, prefix: string) {
    |prefix| <= |s| && s[..|prefix|] == prefix
  }

  /** `sep` occurs in `s` at index `i`. */
  predicate OccursAt(s: string, sep: string, i: int) {
    0 <= i && i + |sep| <= |s| && s[i..i + |sep|] == sep
  }

  /** `s.find(sep, i)`, with `None` for Python's -1. */
  function FindFrom(s: string, sep: string, i: nat): (r: Option<nat>)
    requires sep != []
    ensures r.Some? ==> i <= r.value && r.value + |sep| <= |s|
    decreases |s| - i
  {
    if i + |sep| > |s| then None
    else if s[i..i + |sep|] == sep then Some(i)
    else FindFrom(s, sep, i + 1)
  }

  /** `FindFrom` finds the leftmost occurrence at or after `i`, and `None`
      means there is none. */
  lemma {:induction false} FindFromSpec(s: string, sep: string, i: nat)
    requires sep != []
    ensures var r := FindFrom(s, sep, i);
      && (r.Some? ==> OccursAt(s, sep, r.value))
      && (r.Some? ==> forall j :: i <= j < r.value ==> !OccursAt(s, sep, j))
      && (r.None? ==> forall j :: i <= j ==> !OccursAt(s, sep, j))
    decreases |s| - i
  {
    if i + |sep| <= |s| && s[i..i + |sep|] != sep {
      FindFromSpec(s, sep, i + 1);
    }
  }

  /** `s.find(sep)`. */
  function Find(s: string, sep: string): (r: Option<nat>)
    requires sep != []
    ensures r.Some? ==> r.value + |sep| <= |s|
  {
    FindFrom(s, sep, 0)
  }

  /** `Find` gives the leftmost occurrence, and `None` only when there is none. */
  lemma FindSpec(s: string, sep: string)
    requires sep != []
    ensures Find(s, sep).Some? ==> OccursAt(s, sep, Find(s, sep).value)
    ensures Find(s, sep).Some? ==> forall j :: 0 <= j < Find(s, sep).value ==> !OccursAt(s, sep, j)
    ensures Find(s, sep).None? ==> forall j :: 0 <= j ==> !OccursAt(s, sep, j)
  {
    FindFromSpec(s, sep, 0);
  }

  /** `sep in s`. */
  predicate Contains(s: string, sep: string) {
    sep == [] || Find(s, sep).Some?
  }

  /** `sep in s` holds exactly when `sep` occurs somewhere in `s`. */
  lemma ContainsSpec(s: string, sep: string)
    requires sep != []
    ensures Contains(s, sep) <==> exists i :: OccursAt(s, sep, i)
  {
    FindSpec(s, sep);
  }

  /** An occurrence that fits inside the first `n` characters is an
      occurrence in that prefix. */
  lemma OccursInPrefixOf(s: string, sep: string, n: nat)
    requires n <= |s|
    ensures forall j :: OccursAt(s, sep, j) && j + |sep| <= n ==> OccursAt(s[..n], sep, j)
  {
    forall j | OccursAt(s, sep, j) && j + |sep| <= n ensures OccursAt(s[..n], sep, j) {
      assert s[..n][j..j + |sep|] == s[j..j + |sep|];
    }
  }

  /** When `sep` follows `a` and no occurrence starts inside `a`, even one
      running into `sep` itself, the search finds the `sep` right after `a`. */
  lemma FindAfter(a: string, sep: string, b: string)
    requires sep != [] && !Contains(a + sep[..|sep| - 1], sep)
    ensures Find(a + sep + b, sep) == Some(|a|)
  {
    var s := a + sep + b;
    var n := |a| + |sep| - 1;
    assert s[..n] == a + sep[..|sep| - 1];
    assert s[|a|..|a| + |sep|] == sep;
    assert OccursAt(s, sep, |a|);
    FindSpec(s, sep);
    FindSpec(s[..n], sep);
    OccursInPrefixOf(s, sep, n);
    assert Find(s, sep).value >= |a|;
  }

  /** What `Find` returns splits `s` into the text before the first
      occurrence, `sep`, and the rest; no occurrence starts before it. */
  lemma FindSplits(s: string, sep: string)
    requires sep != [] && Find(s, sep).Some?
    ensures var i := Find(s, sep).value;
      && s == s[..i] + sep + s[i + |sep|..]
      && !Contains(s[..i] + sep[..|sep| - 1], sep)
  {
    var i := Find(s, sep).value;
    var n := i + |sep| - 1;
    FindSpec(s, sep);
    assert s[i..i + |sep|] == sep;
    Reassemble(s, i, i + |sep|);
    assert s[..n] == s[..i] + sep[..|sep| - 1];
    forall j | 0 <= j && j + |sep| <= n ensures !OccursAt(s[..n], sep, j) {
      assert !OccursAt(s, sep, j);
      assert s[..n][j..j + |sep|] == s[j..j + |sep|];
    }
    FindSpec(s[..n], sep);
  }

  /** No occurrence starts before the one `Find` returns. */
  lemma LeftmostPrefix(s: string, sep: string)
    requires sep != [] && Find(s, sep).Some?
    ensures var i := Find(s, sep).value;
      !Contains(s[..i] + sep[..|sep| - 1], sep)
  {
    FindSplits(s, sep);
  }

  /** `sep.join(parts)`. */
  function Join(parts: seq<string>, sep: string): string {
    if |parts| == 0 then ""
    else if |parts| == 1 then parts[0]
    else parts[0] + sep + Join(parts[1..], sep)
  }

  /** `s.split(sep, maxsplit)`: at most `maxsplit` cuts, each at the leftmost
      occurrence of `sep` in what is left. */
  function SplitN(s: string, sep: string, maxsplit: nat): (parts: seq<string>)
    requires sep != []
    ensures 1 <= |parts| <= maxsplit + 1
    decreases maxsplit
  {
    if maxsplit == 0 then
      [s]
    else
      match Find(s, sep)
      case None => [s]
      case Some(i) => [s[..i]] + SplitN(s[i + |sep|..], sep, maxsplit - 1)
  }

  /** Joining the parts with `sep` gives `s` back. */
  lemma {:induction false} SplitNJoin(s: string, sep: string, maxsplit: nat)
    requires sep != []
    ensures Join(SplitN(s, sep, maxsplit), sep) == s
    decreases maxsplit
  {
    if maxsplit == 0 || Find(s, sep).None? {
      SplitNWhole(s, sep, maxsplit);
    } else {
      var i := Find(s, sep).value;
      var rest := SplitN(s[i + |sep|..], sep, maxsplit - 1);
      SplitNJoin(s[i + |sep|..], sep, maxsplit - 1);
      FindSpec(s, sep);
      JoinCut(s, sep, i, rest);
      SplitNUnfold(s, sep, maxsplit, i);
    }
  }

  lemma JoinCut(s: string, sep: string, i: nat, rest: seq<string>)
    requires OccursAt(s, sep, i)
    requires rest != [] && Join(rest, sep) == s[i + |sep|..]
    ensures Join([s[..i]] + rest, sep) == s
  {
    JoinCons(s[..i], rest, sep);
    Reassemble(s, i, i + |sep|);
  }

  /** Every cut is at the leftmost occurrence of `sep` in what is left: no
      occurrence starts inside a part but the last, not even one running into
      the `sep` that follows it. The last part contains `sep` only when all
      `maxsplit` cuts were made. */
  ghost predicate CutAtLeftmost(parts: seq<string>, sep: string, maxsplit: nat)
    requires sep != []
  {
    && (forall k :: 0 <= k < |parts| - 1 ==> LeftmostBefore(parts, k, sep))
    && (0 < |parts| <= maxsplit ==> !Contains(parts[|parts| - 1], sep))
  }

  /** No occurrence of `sep` starts inside `parts[k]`, not even one running
      into the `sep` that follows it. */
  ghost predicate LeftmostBefore(parts: seq<string>, k: nat, sep: string)
    requires sep != [] && k < |parts|
  {
    !Contains(parts[k] + sep[..|sep| - 1], sep)
  }

  lemma SplitNWhole(s: string, sep: string, maxsplit: nat)
    requires sep != [] && (maxsplit == 0 || Find(s, sep).None?)
    ensures SplitN(s, sep, maxsplit) == [s]
  {
  }

  lemma CutAtLeftmostEq(parts: seq<string>, parts': seq<string>, sep: string, maxsplit: nat)
    requires sep != [] && parts == parts' && CutAtLeftmost(parts', sep, maxsplit)
    ensures CutAtLeftmost(parts, sep, maxsplit)
  {
  }

  lemma SplitNUnfold(s: string, sep: string, maxsplit: nat, i: nat)
    requires sep != [] && maxsplit > 0 && Find(s, sep) == Some(i)
    ensures SplitN(s, sep, maxsplit) == [s[..i]] + SplitN(s[i + |sep|..], sep, maxsplit - 1)
  {
  }

  /** `SplitN` cuts at leftmost occurrences. */
  lemma {:induction false} SplitNCutsLeftmost(s: string, sep: string, maxsplit: nat)
    requires sep != []
    ensures CutAtLeftmost(SplitN(s, sep, maxsplit), sep, maxsplit)
    decreases maxsplit
  {
    if maxsplit == 0 || Find(s, sep).None? {
      SplitNWhole(s, sep, maxsplit);
    } else {
      var i := Find(s, sep).value;
      var rest := SplitN(s[i + |sep|..], sep, maxsplit - 1);
      SplitNCutsLeftmost(s[i + |sep|..], sep, maxsplit - 1);
      LeftmostPrefix(s, sep);
      ConsParts(s[..i], rest, sep, maxsplit);
      SplitNUnfold(s, sep, maxsplit, i);
      CutAtLeftmostEq(SplitN(s, sep, maxsplit), [s[..i]] + rest, sep, maxsplit);
    }
  }

  /** The leftmost cuts are the only ones: parts that join back to `s`, are
      no more than `maxsplit + 1`, and are cut at leftmost occurrences are
      exactly what `SplitN` returns. */
  lemma {:induction false} SplitNUnique(parts: seq<string>, s: string, sep: string, maxsplit: nat)
    requires sep != [] && 0 < |parts| <= maxsplit + 1
    requires Join(parts, sep) == s && CutAtLeftmost(parts, sep, maxsplit)
    ensures parts == SplitN(s, sep, maxsplit)
    decreases |parts|
  {
    if |parts| == 1 {
      assert s == parts[0];
      SplitNOfOnePart(s, sep, maxsplit);
    } else {
      CutAtLeftmostTail(parts, sep, maxsplit);
      SplitNUnique(parts[1..], Join(parts[1..], sep), sep, maxsplit - 1);
      assert LeftmostBefore(parts, 0, sep);
      SplitNFirstCut(parts, sep, maxsplit);
    }
  }

  /** Parts cut at leftmost occurrences: if the parts after the first are
      what `SplitN` makes of the text after the first cut, all of them are. */
  lemma SplitNFirstCut(parts: seq<string>, sep: string, maxsplit: nat)
    requires sep != [] && |parts| >= 2 && maxsplit > 0 && LeftmostBefore(parts, 0, sep)
    requires SplitN(Join(parts[1..], sep), sep, maxsplit - 1) == parts[1..]
    ensures SplitN(Join(parts, sep), sep, maxsplit) == parts
  {
    var head, rest := parts[0], parts[1..];
    var s, tail := Join(parts, sep), Join(rest, sep);
    LeftmostFirstCut(parts, sep);
    SplitNCons(s, sep, maxsplit, head, tail, rest);
    assert parts == [head] + rest;
  }

  lemma SplitNCons(s: string, sep: string, maxsplit: nat, head: string, tail: string, rest: seq<string>)
    requires sep != [] && maxsplit > 0 && Find(s, sep) == Some(|head|) && s[..|head|] == head
    requires s[|head| + |sep|..] == tail && SplitN(tail, sep, maxsplit - 1) == rest
    ensures SplitN(s, sep, maxsplit) == [head] + rest
  {
    SplitNUnfold(s, sep, maxsplit, |head|);
  }

  lemma SplitNOfOnePart(s: string, sep: string, maxsplit: nat)
    requires sep != [] && (maxsplit == 0 || !Contains(s, sep))
    ensures SplitN(s, sep, maxsplit) == [s]
  {
  }

  /** Parts cut at leftmost occurrences: the search finds the `sep` right
      after the first part. */
  lemma LeftmostFirstCut(parts: seq<string>, sep: string)
    requires sep != [] && |parts| >= 2 && LeftmostBefore(parts, 0, sep)
    ensures var s, i := Join(parts, sep), |parts[0]|;
      && Find(s, sep) == Some(i)
      && s[..i] == parts[0]
      && s[i + |sep|..] == Join(parts[1..], sep)
  {
    var head, tail := parts[0], Join(parts[1..], sep);
    JoinCons(head, parts[1..], sep);
    assert parts == [head] + parts[1..];
    FindAfter(head, sep, tail);
    var s := head + sep + tail;
    assert s[..|head|] == head;
    assert s[|head| + |sep|..] == tail;
  }

  lemma CutAtLeftmostTail(parts: seq<string>, sep: string, maxsplit: nat)
    requires sep != [] && |parts| >= 2 && |parts| <= maxsplit + 1
    requires CutAtLeftmost(parts, sep, maxsplit)
    ensures maxsplit > 0 && CutAtLeftmost(parts[1..], sep, maxsplit - 1)
    ensures 0 < |parts[1..]| <= maxsplit
  {
    var rest := parts[1..];
    forall k | 0 <= k < |rest| - 1
      ensures LeftmostBefore(rest, k, sep)
    {
      assert LeftmostBefore(parts, k + 1, sep);
      assert rest[k] == parts[k + 1];
    }
    assert rest[|rest| - 1] == parts[|parts| - 1];
  }

  lemma Reassemble(s: string, i: nat, j: nat)
    requires i <= j <= |s|
    ensures s == s[..i] + s[i..j] + s[j..]
  {
  }

  /** Prepending a part cut at the leftmost occurrence to the parts of one
      cut fewer. */
  lemma ConsParts(head: string, rest: seq<string>, sep: string, maxsplit: nat)
    requires sep != [] && maxsplit > 0 && rest != []
    requires !Contains(head + sep[..|sep| - 1], sep)
    requires CutAtLeftmost(rest, sep, maxsplit - 1)
    ensures CutAtLeftmost([head] + rest, sep, maxsplit)
  {
    var parts := [head] + rest;
    forall k | 0 <= k < |parts| - 1 ensures LeftmostBefore(parts, k, sep) {
      if k > 0 {
        assert LeftmostBefore(rest, k - 1, sep);
        assert parts[k] == rest[k - 1];
      }
    }
    assert parts[|parts| - 1] == rest[|rest| - 1];
  }

  lemma JoinCons(head: string, rest: seq<string>, sep: string)
    requires rest != []
    ensures Join([head] + rest, sep) == head + sep + Join(rest, sep)
  {
    assert ([head] + rest)[1..] == rest;
  }

  /** `s.replace(from, to)` for one-character `from` and `to`. */
  function ReplaceChar(s: string, from: char, to: char): (r: string)
    ensures |r| == |s|
    ensures forall i :: 0 <= i < |s| ==> r[i] == if s[i] == from then to else s[i]
  {
    if s == [] then [] else [if s[0] == from then to else s[0]] + ReplaceChar(s[1..], from, to)
  }

  /** Letters that have case; the model covers the ASCII letters only. */
  predicate IsCased(c: char) {
    'a' <= c <= 'z' || 'A' <= c <= 'Z'
  }

  function Upper(c: char): char {
    if 'a' <= c <= 'z' then (c as int - 32) as char else c
  }

  function Lower(c: char): char {
    if 'A' <= c <= 'Z' then (c as int + 32) as char else c
  }

  /** What `str.title()` makes of position `i`: a character that starts a word
      (it is first, or follows a character without case) is upper-cased, any
      other is lower-cased. */
  ghost function TitleAt(s: string, i: nat): char
    requires i < |s|
  {
    if i == 0 || !IsCased(s[i - 1]) then Upper(s[i]) else Lower(s[i])
  }

  /** `str.title()`, scanning left to right and remembering whether the
      previous character had case. */
  function TitleFrom(s: string, previousCased: bool): (r: string)
    ensures |r| == |s|
    ensures |s| > 0 ==> r[0] == if previousCased then Lower(s[0]) else Upper(s[0])
    ensures forall i :: 0 < i < |s| ==> r[i] == TitleAt(s, i)
  {
    if s == [] then
      []
    else
      var rest := TitleFrom(s[1..], IsCased(s[0]));
      assert forall i :: 1 < i < |s| ==> TitleAt(s[1..], i - 1) == TitleAt(s, i);
      [if previousCased then Lower(s[0]) else Upper(s[0])] + rest
  }

  function TitleCase(s: string): (r: string)
    ensures |r| == |s|
    ensures forall i :: 0 <= i < |s| ==> r[i] == TitleAt(s, i)
  {
    TitleFrom(s, false)
  }

  /** `name.rfind(c)`, with `None` for -1: the last index holding `c`. */
  function RFind(name: string, c: char): (r: Option<nat>)
    ensures r.Some? ==> r.value < |name| && name[r.value] == c
    ensures r.Some? ==> forall j :: r.value < j < |name| ==> name[j] != c
    ensures r.None? ==> forall j :: 0 <= j < |name| ==> name[j] != c
  {
    if name == [] then None
    else if name[|name| - 1] == c then Some(|name| - 1)
    else RFind(name[..|name| - 1], c)
  }

  /** `PurePath(name).stem`: the name without its last suffix, where a
      suffix is a final '.' that is neither the first nor the last character. */
  function Stem(name: string): (r: string)
    ensures |r| <= |name| && r == name[..|r|]
  {
    match RFind(name, '.')
    case Some(i) => if 0 < i < |name| - 1 then name[..i] else name
    case None => name
  }

  predicate EndsWith(s: string, suffix: string) {
    |suffix| <= |s| && s[|s| - |suffix|..] == suffix
  }

  /** The stem of a `*.md` file name is the name without ".md", except for
      the bare name ".md", which is all suffix-free stem. */
  lemma MarkdownStem(name: string)
    requires EndsWith(name, ".md")
    ensures Stem(name) == if |name| == 3 then name else name[..|name| - 3]
  {
    var n := |name|;
    assert name[n - 3] == '.' && name[n - 2] == 'm' && name[n - 1] == 'd';
    assert RFind(name, '.') == Some(n - 3) by {
      assert name[..n - 1][..n - 2] == name[..n - 2];
    }
  }
}
