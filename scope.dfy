/** Scope inference in `src/python/modules/commitlint/prompts.py`: the file
    names a diff touches, their categories, and the scope label derived from
    them. */
module Scope {
  import opened Strings
  import Git

  // ---------------------------------------------------------------------
  // extract_file_names_from_diff

  /** What `re.findall(r"diff --git a/(.*?) b/(.*?)$", diff, re.MULTILINE)`
      takes from one line: the search is not anchored, so the match starts at
      the first occurrence of the prefix, and the second group is the rest of
      the line after the first " b/" that follows it. */
  function SearchHeader(line: string): (r: Option<string>)
    ensures r.Some? ==> exists k :: 0 <= k <= |line| && Git.HeaderPath(line[k..]) == r
  {
    match IndexOf(line, Git.HeaderPrefix)
    case None => None
    case Some(i) => Git.HeaderPath(line[i..])
  }

  /** An occurrence inside a suffix is an occurrence inside a longer suffix. */
  lemma {:induction false} ContainsSuffix(s: string, t: string, i: nat, j: nat)
    requires i <= j <= |s| && Contains(s[j..], t)
    ensures Contains(s[i..], t)
    decreases j - i
  {
    if i < j {
      ContainsSuffix(s, t, i + 1, j);
      assert s[i..][1..] == s[i + 1..];
    }
  }

  /** A line counts as soon as the header pattern occurs anywhere in it. */
  lemma SearchHeaderFindsAny(line: string, k: nat)
    requires k <= |line| && Git.HeaderPath(line[k..]).Some?
    ensures SearchHeader(line).Some?
  {
    var n := |Git.HeaderPrefix|;
    ContainsAt(line, Git.HeaderPrefix, k);
    var i := IndexOf(line, Git.HeaderPrefix).value;
    assert i <= k;
    assert line[i..][..n] == line[i..i + n];
    assert line[k..][n..] == line[k + n..];
    assert line[i..][n..] == line[i + n..];
    ContainsSuffix(line, Git.PathMarker, i + n, k + n);
  }

  /** The non-empty second groups of every matching line, in order. */
  function FileNames(lines: seq<string>): (r: seq<string>)
    ensures forall p :: p in r ==> p != ""
  {
    if |lines| == 0 then []
    else
      var last := lines[|lines| - 1];
      FileNames(lines[..|lines| - 1])
        + (if SearchHeader(last).Some? && SearchHeader(last).value != "" then [SearchHeader(last).value] else [])
  }

  /** `extract_file_names_from_diff(diff)`. */
  function ExtractFileNames(diff: string): seq<string> {
    FileNames(Split(diff, Git.Newline))
  }

  /** On a line where the prefix occurs only at the start (or not at all), the
      unanchored search and the anchored header test agree. */
  lemma SearchAnchoredLine(line: string)
    requires Contains(line, Git.HeaderPrefix) ==> StartsWith(line, Git.HeaderPrefix)
    ensures SearchHeader(line) == Git.HeaderPath(line)
  {
    if StartsWith(line, Git.HeaderPrefix) {
      assert line[0..] == line;
    } else if Contains(line, Git.HeaderPrefix) {
    } else {
      assert IndexOf(line, Git.HeaderPrefix).None?;
    }
  }

  lemma {:induction false} FileNamesAnchored(lines: seq<string>)
    requires AnchoredHeaders(lines)
    ensures FileNames(lines) == Git.HeaderPaths(lines)
  {
    if |lines| > 0 {
      FileNamesAnchored(lines[..|lines| - 1]);
      SearchAnchoredLine(lines[|lines| - 1]);
    }
  }

  /** When the prefix only ever starts a line and the paths are distinct, the
      file names are exactly the keys `split_diff_by_files` produces, in order. */
  ghost predicate AnchoredHeaders(lines: seq<string>) {
    forall i :: 0 <= i < |lines| ==> (Contains(lines[i], Git.HeaderPrefix) ==> StartsWith(lines[i], Git.HeaderPrefix))
  }

  lemma ExtractMatchesSplit(diff: string)
    requires AnchoredHeaders(Split(diff, Git.Newline))
    requires Git.Distinct(Git.HeaderPaths(Split(diff, Git.Newline)))
    ensures ExtractFileNames(diff) == Git.Keys(Git.FileDiffs(diff))
  {
    FileNamesAnchored(Split(diff, Git.Newline));
    Git.FileDiffsKeysInOrder(diff);
  }

  /** An added line that quotes a header counts for the file names but is not
      a header for the splitter. */
  lemma QuotedHeaderCounts()
    ensures SearchHeader("+diff --git a/x b/y") == Some("y")
    ensures Git.HeaderPath("+diff --git a/x b/y").None?
  {
    var line := "+diff --git a/x b/y";
    assert !StartsWith(line, Git.HeaderPrefix) by {
      assert line[0] != Git.HeaderPrefix[0];
    }
    assert StartsWith(line[1..], Git.HeaderPrefix) by {
      assert line[1..][..13] == Git.HeaderPrefix;
    }
    assert IndexOf(line, Git.HeaderPrefix) == Some(1);
    var rest := line[1..];
    assert rest == "diff --git a/x b/y";
    var tail := rest[13..];
    assert tail == "x b/y";
    assert !StartsWith(tail, Git.PathMarker) by {
      assert tail[0] != Git.PathMarker[0];
    }
    assert StartsWith(tail[1..], Git.PathMarker) by {
      assert tail[1..][..3] == Git.PathMarker;
    }
    assert IndexOf(tail, Git.PathMarker) == Some(1);
    assert rest[13 + 1 + 3..] == "y";
  }

  // ---------------------------------------------------------------------
  // group_files_by_type

  datatype Category = Docs | Config | Cli | Core | Utils | Commands | Modules | Tests

  /** The key order of the `groups` dict. */
  const CategoryOrder: seq<Category> := [Docs, Config, Cli, Core, Utils, Commands, Modules, Tests]

  function Name(c: Category): string {
    match c
    case Docs => "docs"
    case Config => "config"
    case Cli => "cli"
    case Core => "core"
    case Utils => "utils"
    case Commands => "commands"
    case Modules => "modules"
    case Tests => "tests"
  }

  /** The first test that a path passes decides its category. */
  function Classify(f: string): Category {
    if EndsWith(f, ".md") || EndsWith(f, ".rst") || EndsWith(f, ".txt")
      || Contains(f, "docs/") || Contains(f, "README") then Docs
    else if EndsWith(f, ".toml") || EndsWith(f, ".json") || EndsWith(f, ".yaml")
      || EndsWith(f, ".yml") || EndsWith(f, ".ini") || Contains(f, "config") then Config
    else if Contains(f, "cli.py") || Contains(f, "cli/") then Cli
    else if Contains(f, "commands/") || Contains(f, "cmd/") then Commands
    else if Contains(f, "modules/") then Modules
    else if Contains(f, "test") || Contains(f, "tests/") then Tests
    else if Contains(f, "utils/") || Contains(f, "util/") || Contains(f, "helpers/") then Utils
    else Core
  }

  /** The test that puts a path in category c, taken on its own; the core
      category takes everything. */
  predicate Passes(c: Category, f: string) {
    match c
    case Docs =>
      EndsWith(f, ".md") || EndsWith(f, ".rst") || EndsWith(f, ".txt") || Contains(f, "docs/") || Contains(f, "README")
    case Config =>
      EndsWith(f, ".toml") || EndsWith(f, ".json") || EndsWith(f, ".yaml") || EndsWith(f, ".yml")
      || EndsWith(f, ".ini") || Contains(f, "config")
    case Cli => Contains(f, "cli.py") || Contains(f, "cli/")
    case Commands => Contains(f, "commands/") || Contains(f, "cmd/")
    case Modules => Contains(f, "modules/")
    case Tests => Contains(f, "test") || Contains(f, "tests/")
    case Utils => Contains(f, "utils/") || Contains(f, "util/") || Contains(f, "helpers/")
    case Core => true
  }

  /** The position of a category's test in the `if`/`elif` chain. */
  function TestRank(c: Category): nat {
    match c
    case Docs => 0
    case Config => 1
    case Cli => 2
    case Commands => 3
    case Modules => 4
    case Tests => 5
    case Utils => 6
    case Core => 7
  }

  /** A path's category is the one whose test it passes while failing every
      test placed before it in the chain. */
  lemma ClassifyFirstMatch(f: string, c: Category)
    ensures Classify(f) == c <==> Passes(c, f) && forall d :: TestRank(d) < TestRank(c) ==> !Passes(d, f)
  {
    if forall d :: TestRank(d) < TestRank(c) ==> !Passes(d, f) {
      assert TestRank(Docs) < TestRank(c) ==> !Passes(Docs, f);
      assert TestRank(Config) < TestRank(c) ==> !Passes(Config, f);
      assert TestRank(Cli) < TestRank(c) ==> !Passes(Cli, f);
      assert TestRank(Commands) < TestRank(c) ==> !Passes(Commands, f);
      assert TestRank(Modules) < TestRank(c) ==> !Passes(Modules, f);
      assert TestRank(Tests) < TestRank(c) ==> !Passes(Tests, f);
      assert TestRank(Utils) < TestRank(c) ==> !Passes(Utils, f);
    }
  }

  /** A text that lacks one of t's characters cannot contain t. */
  lemma {:induction false} MissingCharNotContained(s: string, t: string, c: char)
    requires c in t && c !in s
    ensures !Contains(s, t)
    decreases |s|
  {
    if |s| > 0 {
      MissingCharNotContained(s[1..], t, c);
    }
  }

  lemma ConfigByName(f: string)
    requires !(EndsWith(f, ".md") || EndsWith(f, ".rst") || EndsWith(f, ".txt"))
    requires !Contains(f, "docs/") && !Contains(f, "README") && Contains(f, "config")
    ensures Classify(f) == Config
  {
  }

  /** The config test runs before the tests test: a test of the config module
      is a config file. */
  lemma TestOfConfigIsConfig(f: string)
    requires f == "tests/python/test_config.py"
    ensures Classify(f) == Config
  {
    assert !(EndsWith(f, ".md") || EndsWith(f, ".rst") || EndsWith(f, ".txt")) by {
      assert f[|f| - 3..] == ".py";
      assert f[|f| - 4..] == "g.py";
    }
    assert !Contains(f, "docs/") by {
      MissingCharNotContained(f, "docs/", 'd');
    }
    assert !Contains(f, "README") by {
      MissingCharNotContained(f, "README", 'R');
    }
    assert Contains(f, "config") by {
      assert f[18..][..6] == "config";
      ContainsAt(f, "config", 18);
    }
    ConfigByName(f);
  }

  /** The files of category c, in input order. */
  function Members(files: seq<string>, c: Category): (r: seq<string>)
    ensures |r| <= |files|
    ensures forall f :: f in r <==> f in files && Classify(f) == c
  {
    if |files| == 0 then []
    else
      var last := files[|files| - 1];
      assert forall f :: f in files <==> f in files[..|files| - 1] || f == last;
      Members(files[..|files| - 1], c) + (if Classify(last) == c then [last] else [])
  }

  /** The non-empty groups among `cats`, in that order. */
  function GroupsOver(cats: seq<Category>, files: seq<string>): seq<(Category, seq<string>)> {
    if |cats| == 0 then []
    else
      (if Members(files, cats[0]) != [] then [(cats[0], Members(files, cats[0]))] else [])
        + GroupsOver(cats[1..], files)
  }

  /** What `group_files_by_type(files)` returns, as its items in order. */
  function Groups(files: seq<string>): seq<(Category, seq<string>)> {
    GroupsOver(CategoryOrder, files)
  }

  /** The closing comprehension: keep the non-empty buckets in key order. */
  function KeepNonEmpty(cats: seq<Category>, buckets: map<Category, seq<string>>): seq<(Category, seq<string>)>
    requires forall c :: c in cats ==> c in buckets
  {
    if |cats| == 0 then []
    else
      (if buckets[cats[0]] != [] then [(cats[0], buckets[cats[0]])] else [])
        + KeepNonEmpty(cats[1..], buckets)
  }

  lemma {:induction false} KeepNonEmptyGroups(cats: seq<Category>, buckets: map<Category, seq<string>>, files: seq<string>)
    requires forall c :: c in cats ==> c in buckets && buckets[c] == Members(files, c)
    ensures KeepNonEmpty(cats, buckets) == GroupsOver(cats, files)
  {
    if |cats| > 0 {
      KeepNonEmptyGroups(cats[1..], buckets, files);
    }
  }

  method GroupFilesByType(files: seq<string>) returns (groups: seq<(Category, seq<string>)>)
    ensures groups == Groups(files)
  {
    var buckets: map<Category, seq<string>> := map[Docs := [], Config := [], Cli := [], Core := [],
                                                   Utils := [], Commands := [], Modules := [], Tests := []];
    var i := 0;
    assert files[..0] == [];
    forall c: Category ensures c in buckets {
      InKeyOrder(c);
    }
    while i < |files|
      invariant 0 <= i <= |files|
      invariant forall c :: c in buckets && buckets[c] == Members(files[..i], c)
    {
      assert files[..i + 1][..i] == files[..i];
      var c := Classify(files[i]);
      buckets := buckets[c := buckets[c] + [files[i]]];
      i := i + 1;
    }
    assert files[..i] == files;
    KeepNonEmptyGroups(CategoryOrder, buckets, files);
    groups := KeepNonEmpty(CategoryOrder, buckets);
  }

  /** Grouping a concatenation groups each part: within a group the files keep
      their input order. */
  lemma {:induction false} MembersAppend(a: seq<string>, b: seq<string>, c: Category)
    ensures Members(a + b, c) == Members(a, c) + Members(b, c)
    decreases |b|
  {
    if |b| == 0 {
      assert a + b == a;
    } else {
      var b0 := b[..|b| - 1];
      assert (a + b)[..|a + b| - 1] == a + b0;
      assert b[..|b| - 1] == b0;
      MembersAppend(a, b0, c);
    }
  }

  /** Each group holds the members of its category, is not empty, and is
      one of `cats`. */
  lemma {:induction false} GroupsOverEntries(cats: seq<Category>, files: seq<string>)
    ensures forall k :: 0 <= k < |GroupsOver(cats, files)| ==>
      GroupsOver(cats, files)[k].1 == Members(files, GroupsOver(cats, files)[k].0)
      && GroupsOver(cats, files)[k].1 != [] && GroupsOver(cats, files)[k].0 in cats
  {
    if |cats| > 0 {
      GroupsOverEntries(cats[1..], files);
      var rest := GroupsOver(cats[1..], files);
      var g := GroupsOver(cats, files);
      assert forall c :: c in cats[1..] ==> c in cats;
      if Members(files, cats[0]) != [] {
        assert g == [(cats[0], Members(files, cats[0]))] + rest;
        assert forall k :: 0 < k < |g| ==> g[k] == rest[k - 1];
      } else {
        assert g == rest;
      }
    }
  }

  /** A file whose category is among `cats` has a group. */
  lemma {:induction false} GroupsOverFinds(cats: seq<Category>, files: seq<string>, f: string)
    requires f in files && Classify(f) in cats
    ensures exists k :: 0 <= k < |GroupsOver(cats, files)| && GroupsOver(cats, files)[k].0 == Classify(f)
  {
    var g := GroupsOver(cats, files);
    var rest := GroupsOver(cats[1..], files);
    var head := if Members(files, cats[0]) != [] then [(cats[0], Members(files, cats[0]))] else [];
    assert g == head + rest;
    if Classify(f) == cats[0] {
      assert f in Members(files, cats[0]);
      assert g[0].0 == Classify(f);
    } else {
      assert Classify(f) in cats[1..];
      GroupsOverFinds(cats[1..], files, f);
      var k :| 0 <= k < |rest| && rest[k].0 == Classify(f);
      assert g[k + |head|] == rest[k];
    }
  }

  lemma InKeyOrder(c: Category)
    ensures c in CategoryOrder
  {
    match c
    case Docs => assert CategoryOrder[0] == c;
    case Config => assert CategoryOrder[1] == c;
    case Cli => assert CategoryOrder[2] == c;
    case Core => assert CategoryOrder[3] == c;
    case Utils => assert CategoryOrder[4] == c;
    case Commands => assert CategoryOrder[5] == c;
    case Modules => assert CategoryOrder[6] == c;
    case Tests => assert CategoryOrder[7] == c;
  }

  /** Every file lands in exactly one group: the group of its category. */
  lemma GroupsPartition(files: seq<string>, f: string)
    ensures var g := Groups(files);
      && (forall k :: 0 <= k < |g| ==> (f in g[k].1 <==> f in files && g[k].0 == Classify(f)))
      && (f in files ==> exists k :: 0 <= k < |g| && g[k].0 == Classify(f))
  {
    InKeyOrder(Classify(f));
    assert Groups(files) == GroupsOver(CategoryOrder, files);
    GroupsOverEntries(CategoryOrder, files);
    if f in files {
      GroupsOverFinds(CategoryOrder, files, f);
    }
  }

  /** Position of a category in the dict's key order. */
  function Rank(c: Category): nat {
    match c
    case Docs => 0
    case Config => 1
    case Cli => 2
    case Core => 3
    case Utils => 4
    case Commands => 5
    case Modules => 6
    case Tests => 7
  }

  /** The key order lists each category at its rank. */
  lemma KeyOrderRanks()
    ensures |CategoryOrder| == 8
    ensures forall i :: 0 <= i < |CategoryOrder| ==> Rank(CategoryOrder[i]) == i
  {
  }

  lemma {:induction false} GroupsOverCats(cats: seq<Category>, files: seq<string>)
    ensures forall k :: 0 <= k < |GroupsOver(cats, files)| ==> GroupsOver(cats, files)[k].0 in cats
  {
    if |cats| > 0 {
      GroupsOverCats(cats[1..], files);
      var rest := GroupsOver(cats[1..], files);
      var g := GroupsOver(cats, files);
      if Members(files, cats[0]) != [] {
        assert g == [(cats[0], Members(files, cats[0]))] + rest;
        assert forall k :: 0 < k < |g| ==> g[k] == rest[k - 1];
      } else {
        assert g == rest;
      }
    }
  }

  lemma {:induction false} GroupsOverOrdered(cats: seq<Category>, files: seq<string>)
    requires forall i, j :: 0 <= i < j < |cats| ==> Rank(cats[i]) < Rank(cats[j])
    ensures forall i, j :: 0 <= i < j < |GroupsOver(cats, files)| ==>
      Rank(GroupsOver(cats, files)[i].0) < Rank(GroupsOver(cats, files)[j].0)
  {
    if |cats| > 0 {
      var rest := GroupsOver(cats[1..], files);
      GroupsOverOrdered(cats[1..], files);
      GroupsOverCats(cats[1..], files);
      var g := GroupsOver(cats, files);
      if Members(files, cats[0]) != [] {
        assert g == [(cats[0], Members(files, cats[0]))] + rest;
        forall j | 0 < j < |g| ensures Rank(g[0].0) < Rank(g[j].0) {
          assert g[j] == rest[j - 1];
          assert rest[j - 1].0 in cats[1..];
          var m :| 0 <= m < |cats| - 1 && cats[1..][m] == rest[j - 1].0;
          assert cats[m + 1] == rest[j - 1].0;
        }
        assert forall i :: 0 < i < |g| ==> g[i] == rest[i - 1];
      } else {
        assert g == rest;
      }
    }
  }

  /** The groups come in the dict's fixed key order, each category at most once. */
  lemma GroupsInKeyOrder(files: seq<string>)
    ensures var g := Groups(files);
      forall i, j :: 0 <= i < j < |g| ==> Rank(g[i].0) < Rank(g[j].0)
  {
    assert Groups(files) == GroupsOver(CategoryOrder, files);
    KeyOrderRanks();
    GroupsOverOrdered(CategoryOrder, files);
  }

  function SumSizes(g: seq<(Category, seq<string>)>): nat {
    if |g| == 0 then 0 else |g[0].1| + SumSizes(g[1..])
  }

  function SumMembers(cats: seq<Category>, files: seq<string>): nat {
    if |cats| == 0 then 0 else |Members(files, cats[0])| + SumMembers(cats[1..], files)
  }

  lemma {:induction false} SumSizesOver(cats: seq<Category>, files: seq<string>)
    ensures SumSizes(GroupsOver(cats, files)) == SumMembers(cats, files)
  {
    if |cats| > 0 {
      SumSizesOver(cats[1..], files);
      var head := if Members(files, cats[0]) != [] then [(cats[0], Members(files, cats[0]))] else [];
      assert GroupsOver(cats, files) == head + GroupsOver(cats[1..], files);
      if head != [] {
        assert (head + GroupsOver(cats[1..], files))[0] == head[0];
        assert (head + GroupsOver(cats[1..], files))[1..] == GroupsOver(cats[1..], files);
      } else {
        assert head + GroupsOver(cats[1..], files) == GroupsOver(cats[1..], files);
      }
    }
  }

  lemma {:induction false} SumMembersSnoc(cats: seq<Category>, files: seq<string>, f: string)
    requires forall i, j :: 0 <= i < j < |cats| ==> cats[i] != cats[j]
    ensures SumMembers(cats, files + [f]) == SumMembers(cats, files) + (if Classify(f) in cats then 1 else 0)
  {
    if |cats| > 0 {
      SumMembersSnoc(cats[1..], files, f);
      assert (files + [f])[..|files|] == files;
      if Classify(f) == cats[0] {
        assert Classify(f) !in cats[1..];
      }
    }
  }

  lemma {:induction false} SumMembersNone(cats: seq<Category>, files: seq<string>)
    requires files == []
    ensures SumMembers(cats, files) == 0
  {
    if |cats| > 0 {
      SumMembersNone(cats[1..], files);
    }
  }

  lemma {:induction false} SumMembersAll(files: seq<string>)
    ensures SumMembers(CategoryOrder, files) == |files|
  {
    if |files| > 0 {
      var init := files[..|files| - 1];
      SumMembersAll(init);
      KeyOrderRanks();
      SumMembersSnoc(CategoryOrder, init, files[|files| - 1]);
      InKeyOrder(Classify(files[|files| - 1]));
      assert init + [files[|files| - 1]] == files;
    } else {
      SumMembersNone(CategoryOrder, files);
    }
  }

  /** No file is lost or repeated: the group sizes add up to the file count. */
  lemma GroupSizesAddUp(files: seq<string>)
    ensures SumSizes(Groups(files)) == |files|
  {
    SumSizesOver(CategoryOrder, files);
    SumMembersAll(files);
  }

  // ---------------------------------------------------------------------
  // os.path.commonprefix

  /** Python's `<=` on strings: code-point lexicographic order. */
  predicate LexLe(a: string, b: string) {
    if |a| == 0 then true
    else if |b| == 0 then false
    else if a[0] != b[0] then a[0] < b[0]
    else LexLe(a[1..], b[1..])
  }

  lemma {:induction false} LexTotal(a: string, b: string)
    ensures LexLe(a, b) || LexLe(b, a)
  {
    if |a| > 0 && |b| > 0 && a[0] == b[0] {
      LexTotal(a[1..], b[1..]);
    }
  }

  lemma {:induction false} LexTrans(a: string, b: string, c: string)
    requires LexLe(a, b) && LexLe(b, c)
    ensures LexLe(a, c)
  {
    if |a| > 0 && |b| > 0 && |c| > 0 && a[0] == b[0] && b[0] == c[0] {
      LexTrans(a[1..], b[1..], c[1..]);
    }
  }

  /** `min(m)`: the first least element. */
  function MinStr(m: seq<string>): (r: string)
    requires |m| > 0
    ensures r in m && forall s :: s in m ==> LexLe(r, s)
  {
    if |m| == 1 then LexRefl(m[0]); m[0]
    else
      var rest := MinStr(m[1..]);
      LexTotal(m[0], rest);
      forall s | s in m[1..] && LexLe(rest, m[0]) ensures LexLe(m[0], s) || LexLe(rest, s) {}
      if LexLe(rest, m[0]) && rest != m[0] then
        rest
      else
        assert forall s :: s in m[1..] ==> LexLe(rest, s);
        LexMinFirst(m[0], rest, m[1..]);
        m[0]
  }

  lemma LexMinFirst(x: string, rest: string, tail: seq<string>)
    requires !(LexLe(rest, x) && rest != x)
    requires forall s :: s in tail ==> LexLe(rest, s)
    ensures forall s :: s in [x] + tail ==> LexLe(x, s)
  {
    LexTotal(x, rest);
    if x == rest {
      LexRefl(x);
    } else {
      LexRefl(x);
      forall s | s in tail ensures LexLe(x, s) {
        LexTrans(x, rest, s);
      }
    }
  }

  lemma {:induction false} LexRefl(a: string)
    ensures LexLe(a, a)
  {
    if |a| > 0 {
      LexRefl(a[1..]);
    }
  }

  /** `max(m)`: the first greatest element. */
  function MaxStr(m: seq<string>): (r: string)
    requires |m| > 0
    ensures r in m && forall s :: s in m ==> LexLe(s, r)
  {
    if |m| == 1 then LexRefl(m[0]); m[0]
    else
      var rest := MaxStr(m[1..]);
      LexTotal(m[0], rest);
      LexRefl(m[0]);
      if LexLe(m[0], rest) && m[0] != rest then
        rest
      else
        forall s | s in m[1..] ensures LexLe(s, m[0]) {
          if m[0] == rest {
          } else {
            LexTrans(s, rest, m[0]);
          }
        }
        m[0]
  }

  /** The loop of `commonprefix` over `s1 = min(m)` and `s2 = max(m)`:
      `s1` up to the first position where the two differ. */
  function CommonPrefix2(s1: string, s2: string): (r: string)
    ensures StartsWith(s1, r) && StartsWith(s2, r)
    ensures |r| < |s1| && |r| < |s2| ==> s1[|r|] != s2[|r|]
    ensures |r| == |s1| || |r| == |s2| || s1[|r|] != s2[|r|]
  {
    if |s1| == 0 || |s2| == 0 || s1[0] != s2[0] then ""
    else
      var r := [s1[0]] + CommonPrefix2(s1[1..], s2[1..]);
      assert s1[..|r|] == [s1[0]] + s1[1..][..|r| - 1];
      assert s2[..|r|] == [s2[0]] + s2[1..][..|r| - 1];
      r
  }

  /** `os.path.commonprefix(m)`. */
  function CommonPrefix(m: seq<string>): string {
    if |m| == 0 then "" else CommonPrefix2(MinStr(m), MaxStr(m))
  }

  /** A common prefix of both is a prefix of their common prefix. */
  lemma {:induction false} CommonPrefix2Greatest(q: string, a: string, b: string)
    requires StartsWith(a, q) && StartsWith(b, q)
    ensures StartsWith(CommonPrefix2(a, b), q)
  {
    if |q| > 0 {
      assert a[0] == q[0] && b[0] == q[0];
      assert a[1..][..|q| - 1] == q[1..];
      assert b[1..][..|q| - 1] == q[1..];
      CommonPrefix2Greatest(q[1..], a[1..], b[1..]);
      var r := CommonPrefix2(a, b);
      assert r == [a[0]] + CommonPrefix2(a[1..], b[1..]);
      assert r[..|q|] == [a[0]] + CommonPrefix2(a[1..], b[1..])[..|q| - 1];
    }
  }

  /** Whatever lies between a and c shares their common prefix. */
  lemma {:induction false} CommonPrefix2Between(a: string, b: string, c: string)
    requires LexLe(a, b) && LexLe(b, c)
    ensures StartsWith(b, CommonPrefix2(a, c))
  {
    if |a| > 0 && |c| > 0 && a[0] == c[0] {
      assert |b| > 0;
      assert b[0] == a[0];
      CommonPrefix2Between(a[1..], b[1..], c[1..]);
      var r := CommonPrefix2(a, c);
      assert r == [a[0]] + CommonPrefix2(a[1..], c[1..]);
      assert b[..|r|] == [b[0]] + b[1..][..|r| - 1];
    }
  }

  /** `commonprefix` is the longest common prefix: q is a prefix of every
      string exactly when it is a prefix of the result. */
  lemma CommonPrefixLongest(m: seq<string>, q: string)
    requires |m| > 0
    ensures (forall s :: s in m ==> StartsWith(s, q)) <==> StartsWith(CommonPrefix(m), q)
  {
    var lo, hi := MinStr(m), MaxStr(m);
    var cp := CommonPrefix(m);
    if forall s :: s in m ==> StartsWith(s, q) {
      CommonPrefix2Greatest(q, lo, hi);
    }
    if StartsWith(cp, q) {
      forall s | s in m ensures StartsWith(s, q) {
        CommonPrefix2Between(lo, s, hi);
        assert s[..|q|] == s[..|cp|][..|q|];
      }
    }
  }

  /** The common prefix depends only on which strings occur. */
  lemma CommonPrefixOfSameElements(a: seq<string>, b: seq<string>)
    requires forall s :: s in a <==> s in b
    ensures CommonPrefix(a) == CommonPrefix(b)
  {
    if |a| > 0 {
      assert a[0] in b;
      var ca, cb := CommonPrefix(a), CommonPrefix(b);
      LexRefl(ca);
      CommonPrefixLongest(a, ca);
      StartsWithRefl(ca);
      StartsWithRefl(cb);
      CommonPrefixLongest(b, ca);
      CommonPrefixLongest(b, cb);
      CommonPrefixLongest(a, cb);
    }
  }

  lemma StartsWithRefl(s: string)
    ensures StartsWith(s, s)
  {
  }

  // ---------------------------------------------------------------------
  // get_scope_for_files

  function GroupNames(g: seq<(Category, seq<string>)>): (r: seq<string>)
    ensures |r| == |g| && forall k :: 0 <= k < |g| ==> r[k] == Name(g[k].0)
  {
    if |g| == 0 then [] else [Name(g[0].0)] + GroupNames(g[1..])
  }

  /** `get_scope_for_files(files)`. */
  function ScopeForFiles(files: seq<string>): (r: string)
    ensures |files| == 0 ==> r == "unknown"
    ensures |files| == 1 ==> r == files[0]
    ensures 2 <= |files| <= 3 ==> r == Join(", ", files)
  {
    if |files| == 0 then "unknown"
    else if |files| == 1 then files[0]
    else if |files| <= 3 then Join(", ", files)
    else
      var g := Groups(files);
      if |g| == 1 then
        var cp := CommonPrefix(g[0].1);
        if cp != "" && '/' in cp then RStripChar(cp, '/') else Name(g[0].0)
      else Join(", ", GroupNames(g))
  }

  /** Members of c in two orderings of the same files occur equally often. */
  lemma {:induction false} MembersMultiset(files: seq<string>, c: Category)
    ensures forall f :: multiset(Members(files, c))[f] == if Classify(f) == c then multiset(files)[f] else 0
  {
    if |files| > 0 {
      var init := files[..|files| - 1];
      MembersMultiset(init, c);
      assert files == init + [files[|files| - 1]];
    }
  }

  lemma MembersPermutation(a: seq<string>, b: seq<string>, c: Category)
    requires multiset(a) == multiset(b)
    ensures multiset(Members(a, c)) == multiset(Members(b, c))
  {
    MembersMultiset(a, c);
    MembersMultiset(b, c);
    assert forall f :: multiset(Members(a, c))[f] == multiset(Members(b, c))[f];
  }

  /** Two group lists with the same categories, in the same order, holding
      the same files up to order. */
  ghost predicate SameGroups(ga: seq<(Category, seq<string>)>, gb: seq<(Category, seq<string>)>) {
    |ga| == |gb| && forall k :: 0 <= k < |ga| ==> ga[k].0 == gb[k].0 && multiset(ga[k].1) == multiset(gb[k].1)
  }

  lemma SameGroupsAppend(a1: seq<(Category, seq<string>)>, b1: seq<(Category, seq<string>)>,
                         a2: seq<(Category, seq<string>)>, b2: seq<(Category, seq<string>)>)
    requires SameGroups(a1, b1) && SameGroups(a2, b2)
    ensures SameGroups(a1 + a2, b1 + b2)
  {
    forall k | 0 <= k < |a1 + a2|
      ensures (a1 + a2)[k].0 == (b1 + b2)[k].0 && multiset((a1 + a2)[k].1) == multiset((b1 + b2)[k].1)
    {
      if k < |a1| {
        assert (a1 + a2)[k] == a1[k] && (b1 + b2)[k] == b1[k];
      } else {
        assert (a1 + a2)[k] == a2[k - |a1|] && (b1 + b2)[k] == b2[k - |a1|];
      }
    }
  }

  lemma {:induction false} GroupsOverPermutation(cats: seq<Category>, a: seq<string>, b: seq<string>)
    requires multiset(a) == multiset(b)
    ensures SameGroups(GroupsOver(cats, a), GroupsOver(cats, b))
  {
    if |cats| > 0 {
      GroupsOverPermutation(cats[1..], a, b);
      MembersPermutation(a, b, cats[0]);
      var ma, mb := Members(a, cats[0]), Members(b, cats[0]);
      assert ma == [] <==> mb == [] by {
        if ma != [] { assert ma[0] in multiset(mb); }
        if mb != [] { assert mb[0] in multiset(ma); }
      }
      var ha := if ma != [] then [(cats[0], ma)] else [];
      var hb := if mb != [] then [(cats[0], mb)] else [];
      assert SameGroups(ha, hb);
      assert GroupsOver(cats, a) == ha + GroupsOver(cats[1..], a);
      assert GroupsOver(cats, b) == hb + GroupsOver(cats[1..], b);
      SameGroupsAppend(ha, hb, GroupsOver(cats[1..], a), GroupsOver(cats[1..], b));
    }
  }

  /** From four files on, the scope does not depend on the order of `files`. */
  lemma ScopeIgnoresOrder(a: seq<string>, b: seq<string>)
    requires multiset(a) == multiset(b) && |a| >= 4
    ensures ScopeForFiles(a) == ScopeForFiles(b)
  {
    assert |a| == |multiset(a)| == |multiset(b)| == |b|;
    var ga, gb := Groups(a), Groups(b);
    GroupsOverPermutation(CategoryOrder, a, b);
    assert GroupNames(ga) == GroupNames(gb);
    if |ga| == 1 {
      assert forall s :: s in ga[0].1 <==> s in gb[0].1 by {
        assert forall s :: s in ga[0].1 <==> s in multiset(ga[0].1);
        assert forall s :: s in gb[0].1 <==> s in multiset(gb[0].1);
      }
      CommonPrefixOfSameElements(ga[0].1, gb[0].1);
    }
  }

  /** Strings that all start with `dir/` have a common prefix that holds a
      '/' and still starts with dir once trailing slashes are stripped. */
  lemma SharedDirectoryPrefix(members: seq<string>, dir: string)
    requires |members| > 0
    requires dir != "" && dir[|dir| - 1] != '/'
    requires forall s :: s in members ==> StartsWith(s, dir + "/")
    ensures CommonPrefix(members) != "" && '/' in CommonPrefix(members)
    ensures StartsWith(RStripChar(CommonPrefix(members), '/'), dir)
  {
    CommonPrefixLongest(members, dir + "/");
    var cp := CommonPrefix(members);
    assert cp[|dir|] == '/';
    var r := RStripChar(cp, '/');
    assert cp[|dir| - 1] == dir[|dir| - 1];
    assert |r| > |dir| - 1;
    assert r[..|dir|] == cp[..|dir|];
  }

  /** Four or more files of one category below a shared directory take that
      directory (at least) as their scope. */
  lemma ScopeSharedDirectory(files: seq<string>, dir: string)
    requires |files| >= 4 && |Groups(files)| == 1
    requires dir != "" && dir[|dir| - 1] != '/'
    requires forall f :: f in files ==> StartsWith(f, dir + "/")
    ensures StartsWith(ScopeForFiles(files), dir)
  {
    var g := Groups(files);
    assert g == GroupsOver(CategoryOrder, files);
    GroupsOverEntries(CategoryOrder, files);
    var members := g[0].1;
    assert members == Members(files, g[0].0);
    forall s | s in members ensures StartsWith(s, dir + "/") {
      assert s in files;
    }
    SharedDirectoryPrefix(members, dir);
  }
}
