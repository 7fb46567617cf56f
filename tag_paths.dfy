/**
 * The path strings of the tag index generator: the directory prefix taken from the
 * posts permalink pattern (`directory_prefix`), and the URL and directory of one tag.
 */
module TagPaths {
  import opened Wrappers

  /** The placeholder the permalink pattern is split on. */
  const Title: string := ":title"

  /** The message Ruby raises when `directory_prefix` indexes the `nil` first field. */
  const NilIndexError: string := "undefined method '[]' for nil"

  /** `:title` starts at position `i` of `s`. */
  predicate TitleAt(s: string, i: nat) {
    i + |Title| <= |s| && s[i..i + |Title|] == Title
  }

  /** `n` is where the first `:title` of `s` starts, or `|s|` when there is none. */
  ghost predicate FirstTitleAt(s: string, n: nat) {
    n <= |s| &&
    (forall i | 0 <= i < n :: !TitleAt(s, i)) &&
    (n < |s| ==> TitleAt(s, n))
  }

  lemma TitleAtTail(s: string, i: nat)
    requires |s| > 0
    ensures TitleAt(s, i + 1) <==> TitleAt(s[1..], i)
  {
    if i + 1 + |Title| <= |s| {
      assert s[i + 1..i + 1 + |Title|] == s[1..][i..i + |Title|];
    }
  }

  /** The text before the first `:title` (all of `s` when it has none). */
  function BeforeTitle(s: string): (r: string)
    ensures |r| <= |s| && r == s[..|r|]
    ensures FirstTitleAt(s, |r|)
  {
    if |s| < |Title| then s
    else if s[..|Title|] == Title then []
    else
      var r' := BeforeTitle(s[1..]);
      assert !TitleAt(s, 0);
      forall j | 1 <= j <= |r'| + 1 ensures TitleAt(s, j) <==> TitleAt(s[1..], j - 1) {
        TitleAtTail(s, j - 1);
      }
      [s[0]] + r'
  }

  /** `f` holds no `:title`. */
  predicate TitleFree(f: string) {
    forall i | 0 <= i < |f| :: !TitleAt(f, i)
  }

  /** The text before the first placeholder holds none. */
  lemma BeforeTitleIsTitleFree(s: string)
    ensures TitleFree(BeforeTitle(s))
  {
    var r := BeforeTitle(s);
    forall i | 0 <= i < |r| ensures !TitleAt(r, i) {
      assert !TitleAt(s, i);
      if i + |Title| <= |r| {
        assert r[i..i + |Title|] == s[i..i + |Title|];
      }
    }
  }

  /**
   * The fields of `s` separated by `:title`, in order, before Ruby drops the trailing
   * empty ones: a string with `k` placeholders has `k + 1` fields.
   */
  function Fields(s: string): (r: seq<string>)
    ensures |r| >= 1 && r[0] == BeforeTitle(s)
    ensures forall k | 0 <= k < |r| :: TitleFree(r[k])
    decreases |s|
  {
    var f := BeforeTitle(s);
    BeforeTitleIsTitleFree(s);
    if |f| == |s| then [s] else [f] + Fields(s[|f| + |Title|..])
  }

  /** Ruby drops empty fields from the end of a `split` result. */
  function DropTrailingEmpty(fs: seq<string>): (r: seq<string>)
    ensures |r| <= |fs| && r == fs[..|r|]
    ensures r != [] ==> r[|r| - 1] != []
    ensures forall i | |r| <= i < |fs| :: fs[i] == []
  {
    if fs != [] && fs[|fs| - 1] == [] then DropTrailingEmpty(fs[..|fs| - 1]) else fs
  }

  /** The fields joined back together with `:title` between them. */
  function JoinTitle(fs: seq<string>): string {
    if fs == [] then []
    else if |fs| == 1 then fs[0]
    else fs[0] + Title + JoinTitle(fs[1..])
  }

  lemma JoinTitleCons(f: string, fs: seq<string>)
    requires fs != []
    ensures JoinTitle([f] + fs) == f + Title + JoinTitle(fs)
  {
    assert ([f] + fs)[1..] == fs;
  }

  /** Splitting loses nothing but the separators: joining the fields gives `s` back. */
  lemma {:induction false} FieldsJoin(s: string)
    ensures JoinTitle(Fields(s)) == s
    decreases |s|
  {
    var f := BeforeTitle(s);
    if |f| < |s| {
      var rest := s[|f| + |Title|..];
      assert Fields(s) == [f] + Fields(rest);
      FieldsJoin(rest);
      JoinTitleCons(f, Fields(rest));
      SplitAtTitle(s, |f|);
    }
  }

  /** A placeholder at `n` splits `s` into the text before it, itself, and the rest. */
  lemma SplitAtTitle(s: string, n: nat)
    requires TitleAt(s, n)
    ensures s == s[..n] + Title + s[n + |Title|..]
  {
    assert s == s[..n] + s[n..n + |Title|] + s[n + |Title|..];
  }

  /**
   * Ruby's `s.split(":title")`: the placeholder-free fields of `s`, in order, without the
   * empty ones at the end.
   */
  function Split(s: string): (r: seq<string>)
    ensures |r| <= |Fields(s)| && r == Fields(s)[..|r|]
    ensures forall k | |r| <= k < |Fields(s)| :: Fields(s)[k] == []
    ensures r != [] ==> r[|r| - 1] != []
    ensures forall k | 0 <= k < |r| :: TitleFree(r[k])
  {
    DropTrailingEmpty(Fields(s))
  }

  /** `s` is zero or more copies of `:title` and nothing else. */
  predicate IsTitleRun(s: string)
    decreases |s|
  {
    s == [] || (TitleAt(s, 0) && IsTitleRun(s[|Title|..]))
  }

  lemma {:induction false} FieldsAllEmpty(s: string)
    ensures (forall i | 0 <= i < |Fields(s)| :: Fields(s)[i] == []) <==> IsTitleRun(s)
    decreases |s|
  {
    var f := BeforeTitle(s);
    if |f| == |s| {
      assert Fields(s) == [s];
      if s != [] {
        assert !TitleAt(s, 0);
      }
    } else {
      var rest := s[|f| + |Title|..];
      FieldsAllEmpty(rest);
      assert Fields(s) == [f] + Fields(rest);
      if f == [] {
        assert TitleAt(s, 0);
        assert s[|Title|..] == rest;
        assert forall i | 0 <= i < |Fields(rest)| :: Fields(s)[i + 1] == Fields(rest)[i];
      } else {
        assert Fields(s)[0] != [];
        assert !TitleAt(s, 0);
      }
    }
  }

  /**
   * `split` yields no field at all exactly when `s` is a run of placeholders; otherwise
   * its first field is the text before the first `:title`.
   */
  lemma SplitFirstField(s: string)
    ensures Split(s) == [] <==> IsTitleRun(s)
    ensures Split(s) != [] ==> Split(s)[0] == BeforeTitle(s)
  {
    FieldsAllEmpty(s);
    var fs := Fields(s);
    if Split(s) == [] {
      assert forall i | 0 <= i < |fs| :: fs[i] == [];
    } else {
      assert Split(s)[0] == fs[0];
    }
  }

  /**
   * `v` is `s` up to its first `:title` (all of `s` when there is none), with one `/`
   * taken off the end when that text ends in `/`.
   */
  ghost predicate IsPatternPrefix(s: string, v: string) {
    |v| <= |s| && v == s[..|v|] &&
    ((FirstTitleAt(s, |v|) && (|v| == 0 || s[|v| - 1] != '/')) ||
     (|v| < |s| && s[|v|] == '/' && FirstTitleAt(s, |v| + 1)))
  }

  /**
   * `directory_prefix`: `""` without a configured permalink; otherwise the first
   * `split(":title")` field with one trailing `/` removed. Ruby raises when `split`
   * returns no field, because it then indexes `nil`.
   */
  function DirectoryPrefix(permalink: Option<string>): (r: Result<string>)
    ensures permalink.None? ==> r == Success("")
    ensures permalink.Some? ==> (r.Failure? <==> IsTitleRun(permalink.value))
    ensures permalink.Some? && r.Success? ==> IsPatternPrefix(permalink.value, r.value)
  {
    match permalink
    case None => Success("")
    case Some(s) =>
      SplitFirstField(s);
      var parts := Split(s);
      if parts == [] then Failure(NilIndexError)
      else
        var p := parts[0];
        Success(if |p| > 0 && p[|p| - 1] == '/' then p[..|p| - 1] else p)
  }

  /** A string has at most one first placeholder position. */
  lemma FirstTitleAtUnique(s: string, n: nat, m: nat)
    requires FirstTitleAt(s, n) && FirstTitleAt(s, m)
    ensures n == m
  {
  }

  /** Only the first character of `:title` is a `:`. */
  lemma TitleColonOnlyFirst(d: nat)
    requires 0 < d < |Title|
    ensures Title[d] != ':'
  {
  }

  /**
   * A placeholder-free text followed by `:title`: no placeholder starts inside the text,
   * since none fits in it and none can straddle its end (`:title` holds one `:`, first).
   */
  lemma {:induction false} BeforeTitleOfPattern(p: string, rest: string)
    requires TitleFree(p)
    ensures BeforeTitle(p + Title + rest) == p
  {
    var s := p + Title + rest;
    assert s[..|p|] == p;
    assert s[|p|..|p| + |Title|] == Title;
    forall i | 0 <= i < |p| ensures !TitleAt(s, i) {
      if i + |Title| <= |p| {
        assert s[i..i + |Title|] == p[i..i + |Title|];
        assert !TitleAt(p, i);
      } else {
        var d := |p| - i;
        TitleColonOnlyFirst(d);
        assert s[i..i + |Title|][d] == s[|p|] == ':';
      }
    }
    assert FirstTitleAt(s, |p|);
    FirstTitleAtUnique(s, |p|, |BeforeTitle(s)|);
  }

  /**
   * For a pattern whose text before its first `:title` holds no placeholder, the prefix is
   * that text with one trailing `/` removed, whatever follows the placeholder.
   */
  lemma DirectoryPrefixOfPattern(p: string, rest: string)
    requires TitleFree(p)
    requires p != [] || !IsTitleRun(rest)
    ensures DirectoryPrefix(Some(p + Title + rest))
         == Success(if |p| > 0 && p[|p| - 1] == '/' then p[..|p| - 1] else p)
  {
    var s := p + Title + rest;
    BeforeTitleOfPattern(p, rest);
    SplitFirstField(s);
    if p == [] {
      assert s[|Title|..] == rest;
    } else {
      assert !TitleAt(s, 0);
    }
  }

  /** Text without a `:` holds no placeholder. */
  lemma NoColonTitleFree(p: string)
    requires ':' !in p
    ensures TitleFree(p)
  {
    forall i | 0 <= i < |p| ensures !TitleAt(p, i) {
      if i + |Title| <= |p| {
        assert p[i..i + |Title|][0] == p[i];
      }
    }
  }

  /** `"posts/:title/"` gives `"posts"`; `"posts//:title"` gives `"posts/"`. */
  lemma DirectoryPrefixExamples()
    ensures DirectoryPrefix(Some("posts/:title/")) == Success("posts")
    ensures DirectoryPrefix(Some("posts//:title")) == Success("posts/")
  {
    var a, b := "posts/", "posts//";
    NoColonTitleFree(a);
    NoColonTitleFree(b);
    assert "posts/:title/" == a + Title + "/";
    assert "posts//:title" == b + Title + "";
    DirectoryPrefixOfPattern(a, "/");
    DirectoryPrefixOfPattern(b, "");
    assert a[..|a| - 1] == "posts";
    assert b[..|b| - 1] == "posts/";
  }

  /** Other placeholders before `:title` stay in the prefix: `"/:year/:month/:title/"` gives `"/:year/:month"`. */
  lemma DirectoryPrefixDateExample()
    ensures DirectoryPrefix(Some("/:year/:month/:title/")) == Success("/:year/:month")
  {
    var p := "/:year/:month/";
    forall i | 0 <= i < |p| ensures !TitleAt(p, i) {
      if i + |Title| <= |p| {
        assert p[i..i + |Title|][1] == p[i + 1];
      }
    }
    assert "/:year/:month/:title/" == p + Title + "/";
    DirectoryPrefixOfPattern(p, "/");
    assert p[..|p| - 1] == "/:year/:month";
  }

  /** The `url` of a tag's record, `<prefix>/tag/<tag>/`: its index page's directory. */
  function TagUrl(prefix: string, tag: string): (r: string)
    ensures r == TagDir(prefix, tag) + "/"
  {
    prefix + "/tag/" + tag + "/"
  }

  /** The directory of a tag's index page, `<prefix>/tag/<tag>`. */
  function TagDir(prefix: string, tag: string): (r: string)
    ensures |r| == |prefix| + 5 + |tag|
    ensures r[..|prefix|] == prefix && r[|prefix|..|prefix| + 5] == "/tag/"
    ensures r[|prefix| + 5..] == tag
  {
    prefix + "/tag/" + tag
  }

  /** Under one prefix, distinct tags get distinct page directories and distinct URLs. */
  lemma TagPathsDistinct(prefix: string, t1: string, t2: string)
    requires t1 != t2
    ensures TagDir(prefix, t1) != TagDir(prefix, t2)
    ensures TagUrl(prefix, t1) != TagUrl(prefix, t2)
  {
    var d1, d2 := TagDir(prefix, t1), TagDir(prefix, t2);
    assert (d1 + "/")[..|d1|] == d1 && (d2 + "/")[..|d2|] == d2;
  }
}
