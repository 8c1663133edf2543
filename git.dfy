/** The string logic of `src/python/utils/git.py`: splitting a unified diff
    into per-file segments, packing segments into size-bounded chunks,
    applying a commit template, and deciding which files are kept away from
    the language model. */
module Git {
  import opened Strings

  /** Characters per merged chunk when the caller gives no bound. */
  const MaxDiffSize: int := 50000
  /** Files larger than this many bytes are filtered. */
  const MaxFileSize: int := 1024 * 1024

  const HeaderPrefix: string := "diff --git a/"
  const PathMarker: string := " b/"
  const Newline: set<char> := {'\n'}

  // ---------------------------------------------------------------------
  // File headers

  /** The "b" path of a line that `^diff --git a/(.*?) b/(.*?)$` matches: the
      line starts with the prefix and the rest holds " b/"; the lazy first
      group makes the path everything after the first " b/". */
  function HeaderPath(line: string): (r: Option<string>)
    ensures r.Some? <==> StartsWith(line, HeaderPrefix) && Contains(line[|HeaderPrefix|..], PathMarker)
    ensures r.Some? ==> EndsWith(line, r.value) && |r.value| + |HeaderPrefix| + |PathMarker| <= |line|
    ensures r.Some? ==>
      && line[|line| - |r.value| - |PathMarker|..|line| - |r.value|] == PathMarker
      && forall k :: |HeaderPrefix| <= k < |line| - |r.value| - |PathMarker| ==> !StartsWith(line[k..], PathMarker)
  {
    if !StartsWith(line, HeaderPrefix) then None
    else
      var rest := line[|HeaderPrefix|..];
      match IndexOf(rest, PathMarker)
      case None => None
      case Some(j) =>
        var path := line[|HeaderPrefix| + j + |PathMarker|..];
        assert line[|line| - |path|..] == path;
        assert line[|HeaderPrefix| + j..|HeaderPrefix| + j + |PathMarker|] == rest[j..j + |PathMarker|];
        forall k | |HeaderPrefix| <= k < |HeaderPrefix| + j
          ensures !StartsWith(line[k..], PathMarker)
        {
          assert line[k..] == rest[k - |HeaderPrefix|..];
        }
        Some(path)
  }

  /** The non-empty header paths of `lines`, in order. */
  function HeaderPaths(lines: seq<string>): seq<string>
  {
    if |lines| == 0 then []
    else
      var last := lines[|lines| - 1];
      HeaderPaths(lines[..|lines| - 1])
        + (if HeaderPath(last).Some? && HeaderPath(last).value != "" then [HeaderPath(last).value] else [])
  }

  ghost predicate Distinct(s: seq<string>) {
    forall i, j :: 0 <= i < j < |s| ==> s[i] != s[j]
  }

  ghost predicate NoNewlines(lines: seq<string>) {
    forall i :: 0 <= i < |lines| ==> '\n' !in lines[i]
  }

  // ---------------------------------------------------------------------
  // Insertion-ordered dictionaries

  /** A Python dict as its items in insertion order. */
  type Entries = seq<(string, string)>

  function Keys(d: Entries): (r: seq<string>)
    ensures |r| == |d| && forall i :: 0 <= i < |d| ==> r[i] == d[i].0
  {
    if |d| == 0 then [] else [d[0].0] + Keys(d[1..])
  }

  function Values(d: Entries): (r: seq<string>)
    ensures |r| == |d| && forall i :: 0 <= i < |d| ==> r[i] == d[i].1
  {
    if |d| == 0 then [] else [d[0].1] + Values(d[1..])
  }

  /** `d[k] = v`: a known key keeps its place and takes the new value,
      a new key goes to the end. */
  function Put(d: Entries, k: string, v: string): (r: Entries)
    ensures k !in Keys(d) ==> r == d + [(k, v)]
    ensures k in Keys(d) ==> |r| == |d| && Keys(r) == Keys(d)
    ensures forall e :: e in r ==> e == (k, v) || e in d
    ensures (k, v) in r
  {
    if |d| == 0 then [(k, v)]
    else if d[0].0 == k then [(k, v)] + d[1..]
    else
      assert Keys(d) == [d[0].0] + Keys(d[1..]);
      [d[0]] + Put(d[1..], k, v)
  }

  // ---------------------------------------------------------------------
  // split_diff_by_files

  /** The loop state of `split_diff_by_files`: the dict built so far, the
      current file ("" when there is none: None and "" are both false in the
      source's tests) and the current file's lines. */
  datatype SplitState = SplitState(fileDiffs: Entries, file: string, lines: seq<string>)

  /** `file_diffs[current_file] = "\n".join(current_diff)` when there is a
      current file with lines. */
  function Saved(st: SplitState): Entries {
    if st.file != "" && |st.lines| > 0 then Put(st.fileDiffs, st.file, Join("\n", st.lines))
    else st.fileDiffs
  }

  function SplitStep(st: SplitState, line: string): SplitState {
    match HeaderPath(line)
    case Some(path) => SplitState(Saved(st), path, [line])
    case None =>
      if st.file != "" then SplitState(st.fileDiffs, st.file, st.lines + [line]) else st
  }

  /** The state after the loop has seen `lines`. */
  function SplitScan(lines: seq<string>): SplitState {
    if |lines| == 0 then SplitState([], "", [])
    else SplitStep(SplitScan(lines[..|lines| - 1]), lines[|lines| - 1])
  }

  function SplitFinish(st: SplitState): Entries {
    Saved(st)
  }

  /** What `split_diff_by_files(diff)` returns. */
  function FileDiffs(diff: string): Entries {
    SplitFinish(SplitScan(Split(diff, Newline)))
  }

  /** Text up to the first newline. */
  function FirstLine(s: string): string {
    Split(s, Newline)[0]
  }

  method SplitDiffByFiles(diff: string) returns (fileDiffs: Entries)
    ensures fileDiffs == FileDiffs(diff)
    ensures forall e :: e in fileDiffs ==> e.0 != "" && HeaderPath(FirstLine(e.1)) == Some(e.0)
    ensures (set k | k in Keys(fileDiffs)) == (set p | p in HeaderPaths(Split(diff, Newline)))
  {
    var lines := Split(diff, Newline);
    fileDiffs := [];
    var currentFile := "";
    var currentDiff: seq<string> := [];
    var i := 0;
    while i < |lines|
      invariant 0 <= i <= |lines|
      invariant SplitState(fileDiffs, currentFile, currentDiff) == SplitScan(lines[..i])
    {
      var line := lines[i];
      assert lines[..i + 1] == lines[..i] + [line];
      ScanSnoc(lines[..i], line);
      var header := HeaderPath(line);
      if header.Some? {
        if currentFile != "" && |currentDiff| > 0 {
          fileDiffs := Put(fileDiffs, currentFile, Join("\n", currentDiff));
        }
        currentFile := header.value;
        currentDiff := [line];
      } else if currentFile != "" {
        currentDiff := currentDiff + [line];
      }
      i := i + 1;
    }
    assert lines[..|lines|] == lines;
    if currentFile != "" && |currentDiff| > 0 {
      fileDiffs := Put(fileDiffs, currentFile, Join("\n", currentDiff));
    }
    FileDiffsShape(diff);
  }

  /** The first piece of a join is its first part when that part has no newline. */
  lemma {:induction false} FirstLineOfJoin(parts: seq<string>)
    requires |parts| > 0 && '\n' !in parts[0]
    ensures FirstLine(Join("\n", parts)) == parts[0]
  {
    if |parts| > 1 {
      SplitAppend(parts[0], Join("\n", parts[1..]));
    }
    NoSeparatorSplit(parts[0]);
  }

  lemma {:induction false} NoSeparatorSplit(s: string)
    requires '\n' !in s
    ensures Split(s, Newline) == [s]
  {
    if |s| > 0 {
      NoSeparatorSplit(s[1..]);
      assert [s[0]] + s[1..] == s;
    }
  }

  /** A newline after a newline-free prefix ends the first piece. */
  lemma {:induction false} SplitAppend(a: string, b: string)
    requires '\n' !in a
    ensures Split(a + "\n" + b, Newline) == [a] + Split(b, Newline)
  {
    if |a| == 0 {
      assert a + "\n" + b == "\n" + b;
      assert ("\n" + b)[1..] == b;
    } else {
      assert (a + "\n" + b)[0] == a[0];
      assert (a + "\n" + b)[1..] == a[1..] + "\n" + b;
      SplitAppend(a[1..], b);
      assert [a[0]] + a[1..] == a;
    }
  }

  /** What the scan keeps true: every saved entry is named by a non-empty
      header path and starts with that header; the current segment starts with
      its header; the saved keys plus the current file are the header paths
      seen so far. */
  ghost predicate ScanShape(st: SplitState, lines: seq<string>) {
    && (|st.lines| > 0 ==> HeaderPath(st.lines[0]) == Some(st.file))
    && (st.file != "" ==> |st.lines| > 0)
    && NoNewlines(st.lines)
    && (forall e :: e in st.fileDiffs ==> e.0 != "" && HeaderPath(FirstLine(e.1)) == Some(e.0))
    && (set k | k in Keys(st.fileDiffs)) + (if st.file != "" then {st.file} else {})
         == (set p | p in HeaderPaths(lines))
  }

  lemma {:induction false} SplitScanShape(lines: seq<string>)
    requires NoNewlines(lines)
    ensures ScanShape(SplitScan(lines), lines)
  {
    if |lines| > 0 {
      var init := lines[..|lines| - 1];
      var line := lines[|lines| - 1];
      SplitScanShape(init);
      assert init + [line] == lines;
      ShapeStep(SplitScan(init), init, line);
    }
  }

  /** One step of the scan keeps its shape. */
  lemma ShapeStep(st: SplitState, init: seq<string>, line: string)
    requires ScanShape(st, init) && '\n' !in line
    ensures ScanShape(SplitStep(st, line), init + [line])
  {
    assert (init + [line])[..|init|] == init;
    if HeaderPath(line).Some? {
      HeaderStep(st, init, line);
    }
  }

  /** A header line saves the current segment, if any, and opens a new one. */
  lemma HeaderStep(st: SplitState, init: seq<string>, line: string)
    requires ScanShape(st, init) && '\n' !in line && HeaderPath(line).Some?
    ensures ScanShape(SplitStep(st, line), init + [line])
  {
    var p := HeaderPath(line).value;
    var extra := if p != "" then [p] else [];
    assert (init + [line])[..|init|] == init;
    assert HeaderPaths(init + [line]) == HeaderPaths(init) + extra;
    assert SplitStep(st, line) == SplitState(Saved(st), p, [line]);
    SavedShape(st, init);
    ElementsAppend(HeaderPaths(init), extra);
  }

  /** Saving keeps every entry named by its header and moves the current
      file from "current" to "saved". */
  lemma SavedShape(st: SplitState, init: seq<string>)
    requires ScanShape(st, init)
    ensures forall e :: e in Saved(st) ==> e.0 != "" && HeaderPath(FirstLine(e.1)) == Some(e.0)
    ensures (set k | k in Keys(Saved(st))) == (set p | p in HeaderPaths(init))
  {
    if st.file != "" {
      FirstLineOfJoin(st.lines);
      SavedKeys(st);
    }
  }

  /** The elements of a concatenation. */
  lemma ElementsAppend(a: seq<string>, b: seq<string>)
    ensures (set x | x in a + b) == (set x | x in a) + (set x | x in b)
  {
  }

  /** Saving the current segment moves its file from "current" to "saved". */
  lemma SavedKeys(st: SplitState)
    requires st.file != "" && |st.lines| > 0
    ensures (set k | k in Keys(Put(st.fileDiffs, st.file, Join("\n", st.lines))))
      == (set k | k in Keys(st.fileDiffs)) + {st.file}
  {
    var d' := Put(st.fileDiffs, st.file, Join("\n", st.lines));
    if st.file !in Keys(st.fileDiffs) {
      assert Keys(d') == Keys(st.fileDiffs) + [st.file] by {
        KeysAppend(st.fileDiffs, (st.file, Join("\n", st.lines)));
      }
    }
  }

  lemma {:induction false} KeysAppend(d: Entries, e: (string, string))
    ensures Keys(d + [e]) == Keys(d) + [e.0]
    ensures Values(d + [e]) == Values(d) + [e.1]
  {
  }

  /** Keys and first lines of `split_diff_by_files`: each entry is keyed by
      the non-empty "b" path of a header line and its text starts with that
      header; every non-empty header path becomes a key. */
  lemma FileDiffsShape(diff: string)
    ensures forall e :: e in FileDiffs(diff) ==> e.0 != "" && HeaderPath(FirstLine(e.1)) == Some(e.0)
    ensures (set k | k in Keys(FileDiffs(diff))) == (set p | p in HeaderPaths(Split(diff, Newline)))
  {
    var lines := Split(diff, Newline);
    SplitScanShape(lines);
    var st := SplitScan(lines);
    if st.file != "" && |st.lines| > 0 {
      FirstLineOfJoin(st.lines);
      SavedKeys(st);
    }
  }

  /** With no header carrying a non-empty path the result is empty; there is
      no whole-diff fallback. */
  lemma FileDiffsWithoutHeaders(diff: string)
    requires HeaderPaths(Split(diff, Newline)) == []
    ensures FileDiffs(diff) == []
  {
    FileDiffsShape(diff);
    NoKeysNoEntries(FileDiffs(diff));
  }

  lemma NoKeysNoEntries(d: Entries)
    requires (set k | k in Keys(d)) == {}
    ensures d == []
  {
    var keys := set k | k in Keys(d);
    assert forall i :: 0 <= i < |d| ==> Keys(d)[i] in keys;
  }

  /** Every header line carries a non-empty "b" path. */
  ghost predicate HeadersNamed(lines: seq<string>) {
    forall i :: 0 <= i < |lines| && HeaderPath(lines[i]).Some? ==> HeaderPath(lines[i]).value != ""
  }

  lemma DistinctLast(a: seq<string>, x: string)
    requires Distinct(a + [x])
    ensures x !in a
  {
    forall i | 0 <= i < |a| ensures a[i] != x {
      assert (a + [x])[i] == a[i] && (a + [x])[|a|] == x;
    }
  }

  lemma DistinctPrefix(a: seq<string>, b: seq<string>)
    requires Distinct(a + b)
    ensures Distinct(a)
  {
    assert forall i :: 0 <= i < |a| ==> (a + b)[i] == a[i];
  }

  /** With distinct header paths nothing is overwritten: the saved keys,
      followed by the current file, are the header paths in order. */
  lemma {:induction false} ScanKeysInOrder(lines: seq<string>)
    requires NoNewlines(lines) && Distinct(HeaderPaths(lines))
    ensures var st := SplitScan(lines);
      Keys(st.fileDiffs) + (if st.file != "" then [st.file] else []) == HeaderPaths(lines)
  {
    if |lines| > 0 {
      var init := lines[..|lines| - 1];
      var line := lines[|lines| - 1];
      var extra := if HeaderPath(line).Some? && HeaderPath(line).value != "" then [HeaderPath(line).value] else [];
      assert HeaderPaths(lines) == HeaderPaths(init) + extra;
      DistinctPrefix(HeaderPaths(init), extra);
      ScanKeysInOrder(init);
      SplitScanShape(init);
      var st := SplitScan(init);
      if HeaderPath(line).Some? && st.file != "" {
        assert st.file == HeaderPaths(init)[|HeaderPaths(init)| - 1];
        assert Keys(st.fileDiffs) == HeaderPaths(init)[..|HeaderPaths(init)| - 1];
        assert st.file !in Keys(st.fileDiffs);
        KeysAppend(st.fileDiffs, (st.file, Join("\n", st.lines)));
      }
    }
  }

  /** The keys of `split_diff_by_files` are the header paths in order when
      those are distinct. */
  lemma FileDiffsKeysInOrder(diff: string)
    requires Distinct(HeaderPaths(Split(diff, Newline)))
    ensures Keys(FileDiffs(diff)) == HeaderPaths(Split(diff, Newline))
  {
    var lines := Split(diff, Newline);
    ScanKeysInOrder(lines);
    SplitScanShape(lines);
    var st := SplitScan(lines);
    if st.file != "" {
      DistinctLast(Keys(st.fileDiffs), st.file);
      KeysAppend(st.fileDiffs, (st.file, Join("\n", st.lines)));
    }
  }

  lemma JoinSnocAny(sep: string, a: seq<string>, x: string, y: string)
    ensures Join(sep, a + [x + sep + y]) == Join(sep, a + [x]) + sep + y
  {
    if |a| > 0 {
      JoinSnoc(sep, a, x + sep + y);
      JoinSnoc(sep, a, x);
    }
  }

  /** What the scan keeps for the round trip: the saved texts followed by
      the current segment join back to the lines seen so far. */
  ghost predicate Rejoins(st: SplitState, lines: seq<string>) {
    st.file != "" && |st.lines| > 0
    && Join("\n", Values(st.fileDiffs) + [Join("\n", st.lines)]) == Join("\n", lines)
  }

  lemma {:induction false} ScanRoundTrip(lines: seq<string>)
    requires |lines| > 0 && HeaderPath(lines[0]).Some?
    requires NoNewlines(lines) && HeadersNamed(lines) && Distinct(HeaderPaths(lines))
    ensures Rejoins(SplitScan(lines), lines)
  {
    var init := lines[..|lines| - 1];
    var line := lines[|lines| - 1];
    assert lines == init + [line];
    ScanSnoc(init, line);
    if |init| == 0 {
      assert SplitScan(init) == SplitState([], "", []);
      assert lines == [line];
      assert SplitScan(lines) == SplitState([], HeaderPath(line).value, [line]);
    } else {
      assert init[0] == lines[0];
      var extra := if HeaderPath(line).Some? && HeaderPath(line).value != "" then [HeaderPath(line).value] else [];
      assert HeaderPaths(lines) == HeaderPaths(init) + extra;
      DistinctPrefix(HeaderPaths(init), extra);
      ScanRoundTrip(init);
      var st := SplitScan(init);
      if HeaderPath(line).Some? {
        ScanKeysInOrder(init);
        DistinctLast(Keys(st.fileDiffs), st.file);
        RoundTripHeader(st, init, line);
      } else {
        RoundTripBody(st, init, line);
      }
    }
  }

  /** A body line joins the current segment. */
  lemma RoundTripBody(st: SplitState, init: seq<string>, line: string)
    requires Rejoins(st, init) && |init| > 0 && HeaderPath(line).None?
    ensures Rejoins(SplitStep(st, line), init + [line])
  {
    assert SplitStep(st, line) == SplitState(st.fileDiffs, st.file, st.lines + [line]);
    JoinSnoc("\n", st.lines, line);
    JoinSnocAny("\n", Values(st.fileDiffs), Join("\n", st.lines), line);
    JoinSnoc("\n", init, line);
  }

  /** A header line with a new, non-empty path saves the segment at the end. */
  lemma RoundTripHeader(st: SplitState, init: seq<string>, line: string)
    requires Rejoins(st, init) && |init| > 0 && st.file !in Keys(st.fileDiffs)
    requires HeaderPath(line).Some? && HeaderPath(line).value != ""
    ensures Rejoins(SplitStep(st, line), init + [line])
  {
    var j := Join("\n", st.lines);
    assert Saved(st) == st.fileDiffs + [(st.file, j)];
    KeysAppend(st.fileDiffs, (st.file, j));
    assert SplitStep(st, line) == SplitState(st.fileDiffs + [(st.file, j)], HeaderPath(line).value, [line]);
    JoinSnoc("\n", Values(st.fileDiffs) + [j], line);
    JoinSnoc("\n", init, line);
  }

  /** Round trip: when the diff starts with a header and every header has a
      distinct, non-empty "b" path, joining the values with newlines gives
      back the diff exactly, and the keys are the paths in order. */
  lemma FileDiffsRoundTrip(diff: string)
    requires HeaderPath(Split(diff, Newline)[0]).Some?
    requires HeadersNamed(Split(diff, Newline)) && Distinct(HeaderPaths(Split(diff, Newline)))
    ensures Join("\n", Values(FileDiffs(diff))) == diff
    ensures Keys(FileDiffs(diff)) == HeaderPaths(Split(diff, Newline))
  {
    var lines := Split(diff, Newline);
    ScanRoundTrip(lines);
    ScanKeysInOrder(lines);
    var st := SplitScan(lines);
    DistinctLast(Keys(st.fileDiffs), st.file);
    KeysAppend(st.fileDiffs, (st.file, Join("\n", st.lines)));
    JoinSplit(diff, '\n');
  }

  lemma ScanSnoc(a: seq<string>, x: string)
    ensures SplitScan(a + [x]) == SplitStep(SplitScan(a), x)
  {
    assert (a + [x])[..|a|] == a;
  }

  /** A repeated "b" path overwrites the earlier entry: the key keeps its
      single place and the later segment's text wins. */
  lemma RepeatedPathOverwrites(header1: string, line1: string, header2: string, line2: string, path: string)
    requires path != ""
    requires HeaderPath(header1) == Some(path) && HeaderPath(header2) == Some(path)
    requires HeaderPath(line1).None? && HeaderPath(line2).None?
    ensures SplitFinish(SplitScan([header1, line1, header2, line2])) == [(path, header2 + "\n" + line2)]
  {
    var first := [header1, line1];
    OneSegment(first, path);
    SecondSegment(first, header2, line2, path);
    assert first + [header2] + [line2] == [header1, line1, header2, line2];
    SavedOverwrites(Join("\n", first), path, header2, line2);
  }

  lemma SavedOverwrites(first: string, path: string, header: string, line: string)
    requires path != ""
    ensures Saved(SplitState([(path, first)], path, [header, line])) == [(path, header + "\n" + line)]
  {
    assert Join("\n", [header, line]) == header + "\n" + line by {
      assert [header, line][1..] == [line];
    }
  }

  /** A header for `path` followed by one other line. */
  lemma OneSegment(l: seq<string>, path: string)
    requires |l| == 2 && path != "" && HeaderPath(l[0]) == Some(path) && HeaderPath(l[1]).None?
    ensures SplitScan(l) == SplitState([], path, l)
  {
    var first := SplitStep(SplitState([], "", []), l[0]);
    assert first == SplitState([], path, [l[0]]);
    assert SplitStep(first, l[1]) == SplitState([], path, [l[0]] + [l[1]]);
    ScanSnoc([], l[0]);
    ScanSnoc([l[0]], l[1]);
    assert [] + [l[0]] == [l[0]] && [l[0]] + [l[1]] == l;
  }

  /** After one segment for `path`, a second header for `path` and one more
      line: the first segment is saved and the second is in progress. */
  lemma SecondSegment(l: seq<string>, header: string, line: string, path: string)
    requires path != "" && |l| > 0 && SplitScan(l) == SplitState([], path, l)
    requires HeaderPath(header) == Some(path) && HeaderPath(line).None?
    ensures SplitScan(l + [header] + [line]) == SplitState([(path, Join("\n", l))], path, [header, line])
  {
    ScanSnoc(l, header);
    ScanSnoc(l + [header], line);
  }

  /** `d.get(k)`: the value stored under k, if any. */
  function Lookup(d: Entries, k: string): Option<string> {
    if |d| == 0 then None
    else if d[0].0 == k then Some(d[0].1)
    else Lookup(d[1..], k)
  }

  /** After `d[k] = v`, `d[k]` is v. */
  lemma {:induction false} PutLookupSame(d: Entries, k: string, v: string)
    ensures Lookup(Put(d, k, v), k) == Some(v)
  {
    if |d| > 0 && d[0].0 != k {
      PutLookupSame(d[1..], k, v);
      assert ([d[0]] + Put(d[1..], k, v))[1..] == Put(d[1..], k, v);
    }
  }

  /** `d[k] = v` leaves every other key's value as it was. */
  lemma {:induction false} PutLookupOther(d: Entries, k: string, v: string, other: string)
    requires other != k
    ensures Lookup(Put(d, k, v), other) == Lookup(d, other)
  {
    if |d| > 0 {
      if d[0].0 == k {
        assert ([(k, v)] + d[1..])[1..] == d[1..];
      } else {
        PutLookupOther(d[1..], k, v, other);
        assert ([d[0]] + Put(d[1..], k, v))[1..] == Put(d[1..], k, v);
      }
    }
  }

  /** Line j ends the segment that the header at line i opens: it is the
      next header line, or the end of the lines. */
  ghost predicate SegmentEnd(lines: seq<string>, i: nat, j: nat) {
    && i < j <= |lines|
    && (forall m :: i < m < j ==> HeaderPath(lines[m]).None?)
    && (j < |lines| ==> HeaderPath(lines[j]).Some?)
  }

  /** Inside the segment of line i, the scan's current file is that header's
      path and its lines are the segment's lines so far. */
  lemma {:induction false} ScanInSegment(lines: seq<string>, i: nat, m: nat, k: string)
    requires i < m <= |lines| && HeaderPath(lines[i]) == Some(k) && k != ""
    requires forall n :: i < n < m ==> HeaderPath(lines[n]).None?
    ensures SplitScan(lines[..m]).file == k && SplitScan(lines[..m]).lines == lines[i..m]
    decreases m
  {
    if m == i + 1 {
      SegmentOpens(lines, i, k);
    } else {
      ScanInSegment(lines, i, m - 1, k);
      SegmentGrows(lines, i, m, k);
    }
  }

  /** The header at line i makes its path current with that line alone. */
  lemma SegmentOpens(lines: seq<string>, i: nat, k: string)
    requires i < |lines| && HeaderPath(lines[i]) == Some(k)
    ensures SplitScan(lines[..i + 1]).file == k && SplitScan(lines[..i + 1]).lines == lines[i..i + 1]
  {
    ScanPrefixStep(lines, i + 1);
    assert lines[i..i + 1] == [lines[i]];
  }

  /** A line that is not a header extends the current segment by itself. */
  lemma SegmentGrows(lines: seq<string>, i: nat, m: nat, k: string)
    requires i + 1 < m <= |lines| && k != "" && HeaderPath(lines[m - 1]).None?
    requires SplitScan(lines[..m - 1]).file == k && SplitScan(lines[..m - 1]).lines == lines[i..m - 1]
    ensures SplitScan(lines[..m]).file == k && SplitScan(lines[..m]).lines == lines[i..m]
  {
    ScanPrefixStep(lines, m);
    assert lines[i..m] == lines[i..m - 1] + [lines[m - 1]];
  }

  /** Saving the current file leaves every other path's value as it was. */
  lemma SavedLookup(st: SplitState, k: string)
    requires st.file != k
    ensures Lookup(Saved(st), k) == Lookup(st.fileDiffs, k)
  {
    if st.file != "" && |st.lines| > 0 {
      PutLookupOther(st.fileDiffs, st.file, Join("\n", st.lines), k);
    }
  }

  /** Saving the current file stores its joined lines under its path. */
  lemma SavedCurrent(st: SplitState)
    requires st.file != "" && |st.lines| > 0
    ensures Lookup(Saved(st), st.file) == Some(Join("\n", st.lines))
  {
    PutLookupSame(st.fileDiffs, st.file, Join("\n", st.lines));
  }

  /** A step that does not open path k keeps k's value and does not make
      k current. */
  lemma StepKeeps(st: SplitState, x: string, k: string, v: string)
    requires Lookup(st.fileDiffs, k) == Some(v) && st.file != k && HeaderPath(x) != Some(k)
    ensures Lookup(SplitStep(st, x).fileDiffs, k) == Some(v) && SplitStep(st, x).file != k
  {
    if HeaderPath(x).Some? {
      SavedLookup(st, k);
    }
  }

  /** A header for another path closes the segment of the current path k. */
  lemma StepCloses(st: SplitState, x: string, k: string)
    requires st.file == k && k != "" && |st.lines| > 0
    requires HeaderPath(x).Some? && HeaderPath(x) != Some(k)
    ensures Lookup(SplitStep(st, x).fileDiffs, k) == Some(Join("\n", st.lines))
    ensures SplitStep(st, x).file != k
  {
    SavedCurrent(st);
  }

  /** Once path k is saved and not current, lines with no header for k keep
      its value and never make it current again. */
  lemma {:induction false} ScanAfterSegment(lines: seq<string>, j: nat, m: nat, k: string, v: string)
    requires j < m <= |lines|
    requires Lookup(SplitScan(lines[..j + 1]).fileDiffs, k) == Some(v) && SplitScan(lines[..j + 1]).file != k
    requires forall n :: j < n < |lines| ==> HeaderPath(lines[n]) != Some(k)
    ensures Lookup(SplitScan(lines[..m]).fileDiffs, k) == Some(v) && SplitScan(lines[..m]).file != k
    decreases m
  {
    if m > j + 1 {
      ScanAfterSegment(lines, j, m - 1, k, v);
      ScanPrefixStep(lines, m);
      StepKeeps(SplitScan(lines[..m - 1]), lines[m - 1], k, v);
    }
  }

  /** The scan of the first m lines is one step after the scan of the first m - 1. */
  lemma ScanPrefixStep(lines: seq<string>, m: nat)
    requires 0 < m <= |lines|
    ensures SplitScan(lines[..m]) == SplitStep(SplitScan(lines[..m - 1]), lines[m - 1])
  {
    assert lines[..m][..m - 1] == lines[..m - 1];
  }

  /** `file_diffs[path]` is the text of the path's last segment: from its
      header up to the next header line or the end of the diff. */
  lemma SegmentValue(diff: string, i: nat, j: nat, k: string)
    requires SegmentEnd(Split(diff, Newline), i, j)
    requires HeaderPath(Split(diff, Newline)[i]) == Some(k) && k != ""
    requires forall n :: i < n < |Split(diff, Newline)| ==> HeaderPath(Split(diff, Newline)[n]) != Some(k)
    ensures Lookup(FileDiffs(diff), k) == Some(Join("\n", Split(diff, Newline)[i..j]))
  {
    var lines := Split(diff, Newline);
    ScanInSegment(lines, i, j, k);
    if j == |lines| {
      ScanWhole(lines);
      SavedCurrent(SplitScan(lines));
    } else {
      LaterSegments(lines, i, j, k);
      SavedLookup(SplitScan(lines), k);
    }
  }

  /** The value saved when the segment of k closes at header line j survives
      to the end of the scan. */
  lemma LaterSegments(lines: seq<string>, i: nat, j: nat, k: string)
    requires i < j < |lines| && HeaderPath(lines[j]).Some?
    requires forall n :: i < n < |lines| ==> HeaderPath(lines[n]) != Some(k)
    requires k != "" && SplitScan(lines[..j]).file == k && SplitScan(lines[..j]).lines == lines[i..j]
    ensures Lookup(SplitScan(lines).fileDiffs, k) == Some(Join("\n", lines[i..j]))
    ensures SplitScan(lines).file != k
  {
    ScanPrefixStep(lines, j + 1);
    StepCloses(SplitScan(lines[..j]), lines[j], k);
    ScanAfterSegment(lines, j, |lines|, k, Join("\n", lines[i..j]));
    ScanWhole(lines);
  }

  lemma ScanWhole(lines: seq<string>)
    ensures SplitScan(lines[..|lines|]) == SplitScan(lines)
  {
    assert lines[..|lines|] == lines;
  }

  /** Lines without a header leave the scan where it started. */
  lemma {:induction false} ScanNoHeaders(pre: seq<string>)
    requires forall m :: 0 <= m < |pre| ==> HeaderPath(pre[m]).None?
    ensures SplitScan(pre) == SplitState([], "", [])
  {
    if |pre| > 0 {
      ScanNoHeaders(pre[..|pre| - 1]);
    }
  }

  /** Header-free lines in front change nothing: there is no current file
      for them to join. */
  lemma {:induction false} ScanIgnoresPrefix(pre: seq<string>, rest: seq<string>)
    requires forall m :: 0 <= m < |pre| ==> HeaderPath(pre[m]).None?
    ensures SplitScan(pre + rest) == SplitScan(rest)
    decreases |rest|
  {
    if |rest| == 0 {
      assert pre + rest == pre;
      ScanNoHeaders(pre);
    } else {
      var init, x := rest[..|rest| - 1], rest[|rest| - 1];
      assert rest == init + [x];
      assert pre + rest == (pre + init) + [x];
      ScanIgnoresPrefix(pre, init);
      ScanSnoc(pre + init, x);
      ScanSnoc(init, x);
    }
  }

  /** Splitting a join whose leading parts hold no newline gives those parts
      back in front. */
  lemma {:induction false} SplitJoinPrefix(pre: seq<string>, rest: seq<string>)
    requires forall m :: 0 <= m < |pre| ==> '\n' !in pre[m]
    requires |rest| > 0
    ensures Split(Join("\n", pre + rest), Newline) == pre + Split(Join("\n", rest), Newline)
  {
    if |pre| == 0 {
      assert pre + rest == rest;
    } else {
      var later, tail := Split(Join("\n", rest), Newline), pre[1..] + rest;
      assert pre + rest == [pre[0]] + tail;
      SplitConsJoin(pre[0], tail);
      SplitJoinPrefix(pre[1..], rest);
      assert [pre[0]] + pre[1..] == pre;
      assert [pre[0]] + (pre[1..] + later) == ([pre[0]] + pre[1..]) + later;
    }
  }

  /** A newline-free first part comes back as the first piece. */
  lemma SplitConsJoin(head: string, tail: seq<string>)
    requires '\n' !in head && |tail| > 0
    ensures Split(Join("\n", [head] + tail), Newline) == [head] + Split(Join("\n", tail), Newline)
  {
    assert ([head] + tail)[1..] == tail;
    SplitAppend(head, Join("\n", tail));
  }

  /** Lines before the first header are dropped: prepending header-free
      lines to a diff does not change its per-file map. */
  lemma LeadingLinesDropped(pre: seq<string>, rest: seq<string>)
    requires forall m :: 0 <= m < |pre| ==> '\n' !in pre[m] && HeaderPath(pre[m]).None?
    ensures FileDiffs(Join("\n", pre + rest)) == FileDiffs(Join("\n", rest))
  {
    if |rest| > 0 {
      SplitJoinPrefix(pre, rest);
      ScanIgnoresPrefix(pre, Split(Join("\n", rest), Newline));
    } else {
      assert pre + rest == pre;
      assert HeaderPath("").None?;
      ScanNoHeaders([""]);
      if |pre| > 0 {
        SplitJoin(pre);
        ScanNoHeaders(pre);
      }
    }
  }

  // ---------------------------------------------------------------------
  // merge_diffs

  /** Loop state of `merge_diffs`: the chunks emitted and the chunk in progress. */
  datatype MergeState = MergeState(merged: seq<string>, current: string)

  /** One iteration: the separator is not counted in the size test. */
  function MergeStep(st: MergeState, diff: string, maxSize: int): MergeState {
    if |st.current| + |diff| > maxSize && st.current != "" then
      MergeState(st.merged + [st.current], diff)
    else
      MergeState(st.merged, (if st.current != "" then st.current + "\n" else st.current) + diff)
  }

  function MergeScan(diffs: seq<string>, maxSize: int): MergeState {
    if |diffs| == 0 then MergeState([], "")
    else MergeStep(MergeScan(diffs[..|diffs| - 1], maxSize), diffs[|diffs| - 1], maxSize)
  }

  /** What `merge_diffs(diffs, max_size)` returns. */
  function MergedDiffs(diffs: seq<string>, maxSize: int): seq<string> {
    var st := MergeScan(diffs, maxSize);
    if st.current != "" then st.merged + [st.current] else st.merged
  }

  method MergeDiffs(diffs: seq<string>, maxSize: int) returns (merged: seq<string>)
    ensures merged == MergedDiffs(diffs, maxSize)
    ensures forall c :: c in merged ==> c != ""
    ensures diffs == [] ==> merged == []
  {
    merged := [];
    var current := "";
    var i := 0;
    while i < |diffs|
      invariant 0 <= i <= |diffs|
      invariant MergeState(merged, current) == MergeScan(diffs[..i], maxSize)
    {
      assert diffs[..i + 1][..i] == diffs[..i];
      var diff := diffs[i];
      if |current| + |diff| > maxSize && current != "" {
        merged := merged + [current];
        current := diff;
      } else {
        if current != "" {
          current := current + "\n";
        }
        current := current + diff;
      }
      i := i + 1;
    }
    if current != "" {
      merged := merged + [current];
    }
    assert diffs[..|diffs|] == diffs;
    MergedNotEmpty(diffs, maxSize);
  }

  lemma {:induction false} MergedNotEmpty(diffs: seq<string>, maxSize: int)
    ensures forall c :: c in MergeScan(diffs, maxSize).merged ==> c != ""
    ensures forall c :: c in MergedDiffs(diffs, maxSize) ==> c != ""
  {
    if |diffs| > 0 {
      MergedNotEmpty(diffs[..|diffs| - 1], maxSize);
    }
  }

  /** The same packing seen at the level of the inputs: which inputs each
      chunk is made of. */
  datatype GroupState = GroupState(done: seq<seq<string>>, current: seq<string>)

  function GroupStep(st: GroupState, diff: string, maxSize: int): GroupState {
    if |Join("\n", st.current)| + |diff| > maxSize && st.current != [] then
      GroupState(st.done + [st.current], [diff])
    else
      GroupState(st.done, st.current + [diff])
  }

  function GroupScan(diffs: seq<string>, maxSize: int): GroupState {
    if |diffs| == 0 then GroupState([], [])
    else GroupStep(GroupScan(diffs[..|diffs| - 1], maxSize), diffs[|diffs| - 1], maxSize)
  }

  /** The inputs of each chunk of `merge_diffs`, chunk by chunk. */
  function MergeGroups(diffs: seq<string>, maxSize: int): seq<seq<string>> {
    var st := GroupScan(diffs, maxSize);
    if st.current != [] then st.done + [st.current] else st.done
  }

  function JoinEach(groups: seq<seq<string>>): (r: seq<string>)
    ensures |r| == |groups| && forall i :: 0 <= i < |groups| ==> r[i] == Join("\n", groups[i])
  {
    if |groups| == 0 then [] else [Join("\n", groups[0])] + JoinEach(groups[1..])
  }

  function Concat(groups: seq<seq<string>>): seq<string> {
    if |groups| == 0 then [] else groups[0] + Concat(groups[1..])
  }

  lemma {:induction false} ConcatSnoc(groups: seq<seq<string>>, g: seq<string>)
    ensures Concat(groups + [g]) == Concat(groups) + g
  {
    if |groups| == 0 {
      assert [] + [g] == [g];
    } else {
      assert (groups + [g])[1..] == groups[1..] + [g];
      ConcatSnoc(groups[1..], g);
    }
  }

  lemma {:induction false} JoinEachSnoc(groups: seq<seq<string>>, g: seq<string>)
    ensures JoinEach(groups + [g]) == JoinEach(groups) + [Join("\n", g)]
  {
  }

  ghost predicate AllNonEmpty(diffs: seq<string>) {
    forall i :: 0 <= i < |diffs| ==> diffs[i] != ""
  }

  lemma JoinNonEmpty(parts: seq<string>)
    requires |parts| > 0 && AllNonEmpty(parts)
    ensures |Join("\n", parts)| >= |parts[0]| >= 1
  {
  }

  /** The groups of a scan state, the chunk in progress last. */
  function AllGroups(gs: GroupState): seq<seq<string>> {
    if gs.current != [] then gs.done + [gs.current] else gs.done
  }

  /** The string chunks are the joined groups, and the groups hold the
      inputs in order. */
  ghost predicate Agree(st: MergeState, gs: GroupState, diffs: seq<string>) {
    && st.merged == JoinEach(gs.done)
    && st.current == Join("\n", gs.current)
    && (st.current == "" <==> gs.current == [])
    && Concat(gs.done) + gs.current == diffs
    && (forall k :: 0 <= k < |gs.done| ==> gs.done[k] != [])
  }

  /** Groups of non-empty inputs; one of two or more inputs is at most one
      character over the bound and holds no input of the bound's size. */
  ghost predicate Bounded(all: seq<seq<string>>, maxSize: int) {
    && (forall k, j :: 0 <= k < |all| && 0 <= j < |all[k]| ==> all[k][j] != "")
    && (forall k :: 0 <= k < |all| && |all[k]| >= 2 ==>
          |Join("\n", all[k])| <= maxSize + 1 && forall j :: 0 <= j < |all[k]| ==> |all[k][j]| < maxSize)
  }

  /** Consecutive groups would have overflowed together. */
  ghost predicate Flushed(all: seq<seq<string>>, maxSize: int) {
    forall k :: 1 <= k < |all| ==> all[k] != [] && |Join("\n", all[k - 1])| + |all[k][0]| > maxSize
  }

  lemma {:induction false} ScanAgree(diffs: seq<string>, maxSize: int)
    requires AllNonEmpty(diffs)
    ensures Agree(MergeScan(diffs, maxSize), GroupScan(diffs, maxSize), diffs)
  {
    if |diffs| > 0 {
      var init := diffs[..|diffs| - 1];
      var d := diffs[|diffs| - 1];
      assert diffs == init + [d];
      ScanAgree(init, maxSize);
      var gs := GroupScan(init, maxSize);
      if gs.current == [] {
      } else if |Join("\n", gs.current)| + |d| > maxSize {
        JoinEachSnoc(gs.done, gs.current);
        ConcatSnoc(gs.done, gs.current);
      } else {
        JoinSnoc("\n", gs.current, d);
      }
    }
  }

  lemma {:induction false} ScanBounded(diffs: seq<string>, maxSize: int)
    requires AllNonEmpty(diffs)
    ensures Bounded(AllGroups(GroupScan(diffs, maxSize)), maxSize)
  {
    if |diffs| > 0 {
      var init := diffs[..|diffs| - 1];
      var d := diffs[|diffs| - 1];
      ScanBounded(init, maxSize);
      var gs := GroupScan(init, maxSize);
      if gs.current == [] {
        assert gs.current + [d] == [d];
        assert AllGroups(GroupStep(gs, d, maxSize)) == AllGroups(gs) + [[d]];
      } else if |Join("\n", gs.current)| + |d| > maxSize {
        assert GroupStep(gs, d, maxSize) == GroupState(gs.done + [gs.current], [d]);
        assert AllGroups(gs) == gs.done + [gs.current];
        assert AllGroups(GroupStep(gs, d, maxSize)) == AllGroups(gs) + [[d]];
      } else {
        GrowBounded(gs, d, maxSize);
      }
    }
  }

  lemma GrowBounded(gs: GroupState, d: string, maxSize: int)
    requires Bounded(AllGroups(gs), maxSize) && d != "" && gs.current != []
    requires |Join("\n", gs.current)| + |d| <= maxSize
    ensures Bounded(AllGroups(GroupStep(gs, d, maxSize)), maxSize)
  {
    var all := AllGroups(gs);
    var cur := gs.current;
    var cur' := cur + [d];
    assert all[|all| - 1] == cur;
    assert AllGroups(GroupStep(gs, d, maxSize)) == gs.done + [cur'];
    JoinSnoc("\n", cur, d);
    JoinNonEmpty(cur);
    if |cur| == 1 {
      assert Join("\n", cur) == cur[0];
    }
    assert forall j :: 0 <= j < |cur| ==> cur'[j] == cur[j];
    var all' := AllGroups(GroupStep(gs, d, maxSize));
    assert |all'| == |all|;
    assert forall k :: 0 <= k < |all| - 1 ==> all'[k] == all[k];
    assert all'[|all| - 1] == cur';
  }

  lemma {:induction false} ScanFlushed(diffs: seq<string>, maxSize: int)
    ensures Flushed(AllGroups(GroupScan(diffs, maxSize)), maxSize)
  {
    if |diffs| > 0 {
      var init := diffs[..|diffs| - 1];
      var d := diffs[|diffs| - 1];
      ScanFlushed(init, maxSize);
      var gs := GroupScan(init, maxSize);
      var all := AllGroups(gs);
      if |init| == 0 {
        assert gs == GroupState([], []);
        assert GroupStep(gs, d, maxSize) == GroupState([], [d]);
      } else if |Join("\n", gs.current)| + |d| > maxSize {
        assert gs.current != [];
        assert GroupStep(gs, d, maxSize) == GroupState(gs.done + [gs.current], [d]);
        assert all == gs.done + [gs.current];
        FlushedSnoc(all, [d], maxSize);
      } else {
        assert gs.current != [];
        assert all == gs.done + [gs.current];
        assert all[..|all| - 1] == gs.done;
        assert AllGroups(GroupStep(gs, d, maxSize)) == gs.done + [gs.current + [d]];
        FlushedGrow(all, gs.current + [d], maxSize);
      }
    }
  }

  /** A group that would have overflowed the last one may follow it. */
  lemma FlushedSnoc(all: seq<seq<string>>, g: seq<string>, maxSize: int)
    requires Flushed(all, maxSize) && g != []
    requires |all| > 0 ==> |Join("\n", all[|all| - 1])| + |g[0]| > maxSize
    ensures Flushed(all + [g], maxSize)
  {
    var all' := all + [g];
    forall k | 1 <= k < |all'|
      ensures all'[k] != [] && |Join("\n", all'[k - 1])| + |all'[k][0]| > maxSize
    {
      if k < |all| {
        assert all'[k] == all[k] && all'[k - 1] == all[k - 1];
      } else {
        assert all'[k] == g && all'[k - 1] == all[|all| - 1];
      }
    }
  }

  /** Growing the last group at its end keeps the flush rule. */
  lemma FlushedGrow(all: seq<seq<string>>, g: seq<string>, maxSize: int)
    requires Flushed(all, maxSize) && |all| > 0 && all[|all| - 1] != [] && g != []
    requires g[0] == all[|all| - 1][0]
    ensures Flushed(all[..|all| - 1] + [g], maxSize)
  {
    var all' := all[..|all| - 1] + [g];
    forall k | 1 <= k < |all'|
      ensures all'[k] != [] && |Join("\n", all'[k - 1])| + |all'[k][0]| > maxSize
    {
      assert all'[k - 1] == all[k - 1];
      if k < |all| - 1 {
        assert all'[k] == all[k];
      } else {
        assert all'[k] == g;
      }
    }
  }

  lemma {:induction false} JoinConcat(groups: seq<seq<string>>)
    requires forall k :: 0 <= k < |groups| ==> groups[k] != []
    ensures Join("\n", JoinEach(groups)) == Join("\n", Concat(groups))
  {
    if |groups| == 1 {
      var g := groups[0];
      assert groups[1..] == [];
      assert Concat(groups) == g + Concat([]);
      assert Concat(groups) == g;
      assert JoinEach(groups) == [Join("\n", g)];
    } else if |groups| > 1 {
      JoinConcat(groups[1..]);
      assert JoinEach(groups)[1..] == JoinEach(groups[1..]);
      JoinSnocGroups(groups);
    }
  }

  lemma JoinSnocGroups(groups: seq<seq<string>>)
    requires |groups| > 1 && forall k :: 0 <= k < |groups| ==> groups[k] != []
    ensures Join("\n", Concat(groups)) == Join("\n", groups[0]) + "\n" + Join("\n", Concat(groups[1..]))
  {
    assert Concat(groups[1..]) == groups[1] + Concat(groups[2..]);
    JoinAppend("\n", groups[0], Concat(groups[1..]));
  }

  /** The packing of `merge_diffs` for non-empty inputs: the chunks are the
      groups of inputs joined by newlines, the groups hold every input once
      and in order, a chunk of two or more inputs is at most `maxSize + 1`
      long, an input longer than `maxSize` forms a chunk by itself, and a new
      chunk starts only when the previous chunk plus the next input would be
      over the bound. */
  lemma MergeDiffsPacking(diffs: seq<string>, maxSize: int)
    requires AllNonEmpty(diffs)
    ensures var groups := MergeGroups(diffs, maxSize);
      && MergedDiffs(diffs, maxSize) == JoinEach(groups)
      && Concat(groups) == diffs
      && (forall k :: 0 <= k < |groups| ==> groups[k] != [])
      && (forall k :: 0 <= k < |groups| && |groups[k]| >= 2 ==> |Join("\n", groups[k])| <= maxSize + 1)
      && (forall k, j :: 0 <= k < |groups| && 0 <= j < |groups[k]| && |groups[k][j]| > maxSize ==> |groups[k]| == 1)
      && (forall k :: 1 <= k < |groups| ==> |Join("\n", groups[k - 1])| + |groups[k][0]| > maxSize)
  {
    ScanAgree(diffs, maxSize);
    ScanBounded(diffs, maxSize);
    ScanFlushed(diffs, maxSize);
    var gs := GroupScan(diffs, maxSize);
    assert MergeGroups(diffs, maxSize) == AllGroups(gs);
    if gs.current != [] {
      JoinEachSnoc(gs.done, gs.current);
      ConcatSnoc(gs.done, gs.current);
    } else {
      assert Concat(gs.done) + [] == Concat(gs.done);
    }
  }

  /** Every member of a group is an element of the concatenation. */
  lemma {:induction false} InConcat(groups: seq<seq<string>>, k: nat, j: nat)
    requires k < |groups| && j < |groups[k]|
    ensures groups[k][j] in Concat(groups)
  {
    if k > 0 {
      InConcat(groups[1..], k - 1, j);
    }
  }

  /** With the default limit of 50000 characters, every chunk is one input
      as given or at most 50001 characters long. */
  lemma DefaultMergeBound(diffs: seq<string>)
    requires AllNonEmpty(diffs)
    ensures forall chunk :: chunk in MergedDiffs(diffs, MaxDiffSize) ==> chunk in diffs || |chunk| <= 50001
  {
    MergeDiffsPacking(diffs, MaxDiffSize);
    var groups := MergeGroups(diffs, MaxDiffSize);
    forall chunk | chunk in MergedDiffs(diffs, MaxDiffSize)
      ensures chunk in diffs || |chunk| <= 50001
    {
      var k :| 0 <= k < |groups| && JoinEach(groups)[k] == chunk;
      if |groups[k]| == 1 {
        InConcat(groups, k, 0);
      }
    }
  }

  /** `merge_diffs` loses and reorders nothing: when every input is
      non-empty, joining the chunks with newlines equals joining the inputs. */
  lemma MergeDiffsContent(diffs: seq<string>, maxSize: int)
    requires AllNonEmpty(diffs)
    ensures Join("\n", MergedDiffs(diffs, maxSize)) == Join("\n", diffs)
  {
    MergeDiffsPacking(diffs, maxSize);
    JoinConcat(MergeGroups(diffs, maxSize));
  }

  /** The docstring's "each under max_size" is not exact: the separator is
      not counted, so two inputs of total length 4 under a bound of 4 give a
      chunk of length 5. */
  lemma MergeMayExceedBound()
    ensures MergedDiffs(["ab", "cd"], 4) == ["ab\ncd"]
  {
    var diffs := ["ab", "cd"];
    assert diffs[..1] == ["ab"];
    assert ["ab"][..0] == [];
    assert MergeScan([], 4) == MergeState([], "");
    assert MergeScan(["ab"], 4) == MergeState([], "ab");
    assert MergeScan(diffs, 4) == MergeStep(MergeState([], "ab"), "cd", 4);
    assert MergeScan(diffs, 4) == MergeState([], "ab" + "\n" + "cd");
    assert "ab" + "\n" + "cd" == "ab\ncd";
    assert MergedDiffs(diffs, 4) == [] + ["ab\ncd"];
  }

  // ---------------------------------------------------------------------
  // apply_commit_template

  /** A template line that, once stripped, starts with '#'. */
  predicate IsCommentLine(line: string) {
    StartsWith(Strip(line), "#")
  }

  function CommentLines(template: string): seq<string> {
    Filter(Split(template, Newline), IsCommentLine)
  }

  /** `apply_commit_template(message, template)`. */
  function ApplyCommitTemplate(message: string, template: string): (r: string)
    ensures StartsWith(r, Strip(message))
  {
    var m := Strip(message);
    if '#' in template then m + "\n\n" + Join("\n", CommentLines(template)) else m
  }

  /** A template without '#' leaves just the stripped message. */
  lemma TemplateWithoutComments(message: string, template: string)
    requires '#' !in template
    ensures ApplyCommitTemplate(message, template) == Strip(message)
  {
  }

  /** The comment lines are exactly the template lines that are comments. */
  lemma CommentLinesExact(template: string, line: string)
    requires line in Split(template, Newline)
    ensures line in CommentLines(template) <==> IsCommentLine(line)
  {
    if IsCommentLine(line) {
      FilterKeeps(Split(template, Newline), IsCommentLine, line);
    }
  }

  /** With comments, the result's lines are the message's lines, one blank
      line, then the template's comment lines in their order; every other
      template line is dropped. */
  lemma TemplateLines(message: string, template: string)
    requires '#' in template && CommentLines(template) != []
    ensures Split(ApplyCommitTemplate(message, template), Newline)
      == Split(Strip(message), Newline) + [""] + CommentLines(template)
  {
    var m := Strip(message);
    var cs := CommentLines(template);
    assert ApplyCommitTemplate(message, template) == m + "\n\n" + Join("\n", cs);
    SplitBlankLine(m, Join("\n", cs));
    CommentLinesOneLine(template);
    SplitJoin(cs);
  }

  /** A blank line between two texts is one empty line between their lines. */
  lemma SplitBlankLine(a: string, b: string)
    ensures Split(a + "\n\n" + b, Newline) == Split(a, Newline) + [""] + Split(b, Newline)
  {
    assert a + "\n\n" + b == a + ['\n'] + ("" + ['\n'] + b);
    SplitConcat(a, "" + ['\n'] + b, '\n', Newline);
    SplitConcat("", b, '\n', Newline);
  }

  /** Comment lines are lines: none holds a newline. */
  lemma CommentLinesOneLine(template: string)
    ensures forall x :: x in CommentLines(template) ==> '\n' !in x
  {
    var ls := Split(template, Newline);
    forall x | x in CommentLines(template) ensures '\n' !in x {
      assert x in ls;
      var i :| 0 <= i < |ls| && ls[i] == x;
    }
  }

  /** A '#' that only appears inside lines still takes the template branch,
      leaving the message followed by a blank line and nothing else. */
  lemma TemplateMidLineHash(message: string, template: string)
    requires '#' in template
    requires forall i :: 0 <= i < |Split(template, Newline)| ==> !IsCommentLine(Split(template, Newline)[i])
    ensures ApplyCommitTemplate(message, template) == Strip(message) + "\n\n"
  {
    FilterNone(Split(template, Newline), IsCommentLine);
  }

  /** Splitting a join of newline-free lines gives the lines back. */
  lemma {:induction false} SplitJoin(lines: seq<string>)
    requires |lines| > 0 && forall x :: x in lines ==> '\n' !in x
    ensures Split(Join("\n", lines), Newline) == lines
  {
    if |lines| == 1 {
      NoSeparatorSplit(lines[0]);
    } else {
      SplitJoin(lines[1..]);
      SplitConcat(lines[0], Join("\n", lines[1..]), '\n', Newline);
      assert lines[0] + "\n" + Join("\n", lines[1..]) == lines[0] + ['\n'] + Join("\n", lines[1..]);
      NoSeparatorSplit(lines[0]);
    }
  }

  // ---------------------------------------------------------------------
  // Ignore patterns

  /** `DEFAULT_EXCLUDE_PATTERNS`. */
  const DefaultExcludePatterns: seq<string> := [
    "*.lock", "*-lock.json", "yarn.lock", "package-lock.json", "poetry.lock", "Cargo.lock",
    "Gemfile.lock", "composer.lock",
    "*.wasm", "*.min.js", "*.min.css", "*.gz", "*.zip", "*.tar", "*.jar", "*.war", "*.ear",
    "*.class", "*.exe", "*.dll", "*.so", "*.dylib", "*.o", "*.obj",
    "*.jpg", "*.jpeg", "*.png", "*.gif", "*.bmp", "*.ico", "*.svg", "*.webp",
    "dist/*", "build/*", "node_modules/*", "__pycache__/*", "*.pyc",
    "*.pdf", "*.psd", "*.ai", "*.mp3", "*.mp4", "*.mov", "*.avi"
  ]

  const DefaultPatternSet: set<string> := set p | p in DefaultExcludePatterns

  /** Line ends of a file read in text mode (universal newlines); a "\r\n"
      leaves an extra empty piece, which the line filter drops anyway. */
  const LineBreaks: set<char> := {'\n', '\r'}

  /** A stripped line of `.opencommitignore` that becomes a pattern. */
  predicate IsUserPattern(line: string) {
    line != "" && !StartsWith(line, "#")
  }

  /** `get_opencommit_ignore()`, given the text of `.opencommitignore` (None
      when it does not exist or cannot be read): the defaults plus every
      stripped, non-empty line that does not start with '#'. */
  function IgnorePatterns(ignoreFile: Option<string>): set<string> {
    DefaultPatternSet + (if ignoreFile.Some? then UserPatterns(Split(ignoreFile.value, LineBreaks)) else {})
  }

  /** The patterns contributed by the given lines of `.opencommitignore`. */
  function UserPatterns(lines: seq<string>): set<string> {
    if |lines| == 0 then {}
    else
      var line := Strip(lines[|lines| - 1]);
      UserPatterns(lines[..|lines| - 1]) + (if IsUserPattern(line) then {line} else {})
  }

  /** A user pattern is the stripped form of one of the lines, and one that
      is neither empty nor a comment. */
  lemma {:induction false} UserPatternsFromLines(lines: seq<string>, p: string)
    requires p in UserPatterns(lines)
    ensures IsUserPattern(p) && exists i :: 0 <= i < |lines| && Strip(lines[i]) == p
  {
    var n := |lines| - 1;
    if p != Strip(lines[n]) || !IsUserPattern(p) {
      UserPatternsFromLines(lines[..n], p);
      var i :| 0 <= i < n && Strip(lines[..n][i]) == p;
      assert Strip(lines[i]) == p;
    }
  }

  /** Conversely, every line that strips to a non-empty, non-comment text
      contributes that text. */
  lemma {:induction false} LineGivesUserPattern(lines: seq<string>, i: nat)
    requires i < |lines| && IsUserPattern(Strip(lines[i]))
    ensures Strip(lines[i]) in UserPatterns(lines)
    decreases |lines|
  {
    var n := |lines| - 1;
    if i < n {
      LineGivesUserPattern(lines[..n], i);
    }
  }

  /** The user patterns are exactly the stripped lines that are neither empty
      nor comments. */
  lemma UserPatternsExactly(lines: seq<string>, p: string)
    ensures p in UserPatterns(lines) <==> IsUserPattern(p) && exists i :: 0 <= i < |lines| && Strip(lines[i]) == p
  {
    if p in UserPatterns(lines) {
      UserPatternsFromLines(lines, p);
    } else if IsUserPattern(p) && exists i :: 0 <= i < |lines| && Strip(lines[i]) == p {
      var i :| 0 <= i < |lines| && Strip(lines[i]) == p;
      LineGivesUserPattern(lines, i);
    }
  }

  lemma UserPatternsStep(lines: seq<string>, i: nat)
    requires i < |lines|
    ensures UserPatterns(lines[..i + 1])
      == UserPatterns(lines[..i]) + (if IsUserPattern(Strip(lines[i])) then {Strip(lines[i])} else {})
  {
    assert lines[..i + 1][..i] == lines[..i];
  }

  method GetOpencommitIgnore(ignoreFile: Option<string>) returns (patterns: set<string>)
    ensures patterns == IgnorePatterns(ignoreFile)
  {
    var user: set<string> := {};
    if ignoreFile.Some? {
      user := ReadUserPatterns(Split(ignoreFile.value, LineBreaks));
    }
    patterns := DefaultPatternSet + user;
  }

  /** The loop of `get_opencommit_ignore` over the lines of the file. */
  method ReadUserPatterns(lines: seq<string>) returns (user: set<string>)
    ensures user == UserPatterns(lines)
  {
    user := {};
    var i := 0;
    assert lines[..0] == [];
    while i < |lines|
      invariant 0 <= i <= |lines|
      invariant user == UserPatterns(lines[..i])
    {
      UserPatternsStep(lines, i);
      var line := Strip(lines[i]);
      if line != "" && !StartsWith(line, "#") {
        user := user + {line};
      }
      i := i + 1;
    }
    assert lines[..|lines|] == lines;
  }

  /** Comment lines never become patterns: a pattern starting with '#' is a default. */
  lemma IgnoreSkipsComments(ignoreFile: Option<string>, p: string)
    requires p in IgnorePatterns(ignoreFile) && StartsWith(p, "#")
    ensures p in DefaultPatternSet
  {
    if p !in DefaultPatternSet {
      UserPatternsFromLines(Split(ignoreFile.value, LineBreaks), p);
    }
  }

  // ---------------------------------------------------------------------
  // _matches_pattern

  /** `fnmatch` with '*' (any run of characters, '/' included) and '?' (one
      character); every other pattern character stands for itself. */
  function Glob(name: string, pattern: string): bool
    decreases |name| + |pattern|
  {
    if |pattern| == 0 then |name| == 0
    else if pattern[0] == '*' then Glob(name, pattern[1..]) || (|name| > 0 && Glob(name[1..], pattern))
    else |name| > 0 && (pattern[0] == '?' || pattern[0] == name[0]) && Glob(name[1..], pattern[1..])
  }

  predicate Literal(pattern: string) {
    '*' !in pattern && '?' !in pattern
  }

  /** A pattern without wildcards matches only itself. */
  lemma {:induction false} GlobLiteral(name: string, pattern: string)
    requires Literal(pattern)
    ensures Glob(name, pattern) <==> name == pattern
  {
    if |pattern| > 0 && |name| > 0 {
      GlobLiteral(name[1..], pattern[1..]);
      if name[0] == pattern[0] && name[1..] == pattern[1..] {
        assert name == [name[0]] + name[1..] && pattern == [pattern[0]] + pattern[1..];
      }
    }
  }

  /** `*suffix` matches exactly the names ending in suffix. */
  lemma {:induction false} GlobStarSuffix(name: string, suffix: string)
    requires Literal(suffix)
    ensures Glob(name, "*" + suffix) <==> EndsWith(name, suffix)
  {
    var p := "*" + suffix;
    assert p[1..] == suffix;
    GlobLiteral(name, suffix);
    if |name| > 0 {
      GlobStarSuffix(name[1..], suffix);
      assert EndsWith(name[1..], suffix) && |suffix| < |name| ==> name[|name| - |suffix|..] == name[1..][|name[1..]| - |suffix|..];
      if EndsWith(name, suffix) && name != suffix {
        assert name[1..][|name[1..]| - |suffix|..] == name[|name| - |suffix|..];
      }
    }
  }

  // `_matches_pattern(file_path, pattern)`: a pattern ending in "/*" matches
  // the directory itself and everything below it; any other pattern is a glob.
  function MatchesPattern(filePath: string, pattern: string): bool {
    if EndsWith(pattern, "/*") then
      var dir := pattern[..|pattern| - 2];
      filePath == dir || StartsWith(filePath, dir + "/")
    else Glob(filePath, pattern)
  }

  // A pattern `dir + "/*"` matches the directory itself and every path
  // below it, and nothing else.
  lemma DirectoryPattern(filePath: string, dir: string)
    ensures MatchesPattern(filePath, dir + "/*") <==> filePath == dir || StartsWith(filePath, dir + "/")
  {
    var pattern := dir + "/*";
    assert pattern[|pattern| - 2..] == "/*";
    assert pattern[..|pattern| - 2] == dir;
  }

  /** A pattern without wildcards matches only the identical path. */
  lemma LiteralPattern(filePath: string, pattern: string)
    requires Literal(pattern)
    ensures MatchesPattern(filePath, pattern) <==> filePath == pattern
  {
    if |pattern| >= 2 {
      assert pattern[|pattern| - 2..][1] == pattern[|pattern| - 1] != '*';
    }
    GlobLiteral(filePath, pattern);
  }

  /** A pattern "*suffix" matches exactly the paths ending in suffix,
      directories included. */
  lemma StarSuffixPattern(filePath: string, suffix: string)
    requires Literal(suffix)
    ensures MatchesPattern(filePath, "*" + suffix) <==> EndsWith(filePath, suffix)
  {
    var pattern := "*" + suffix;
    assert !EndsWith(pattern, "/*") by {
      if |suffix| > 0 {
        assert pattern[|pattern| - 2..][1] == suffix[|suffix| - 1] != '*';
      }
    }
    assert MatchesPattern(filePath, pattern) == Glob(filePath, pattern);
    GlobStarSuffix(filePath, suffix);
  }

  /** The directory rule and the glob rule on the paths the source's own
      tests use. */
  lemma MatchesExtensionExamples()
    ensures MatchesPattern("file.lock", "*.lock") && !MatchesPattern("file.txt", "*.lock")
  {
    assert !EndsWith("*.lock", "/*");
    assert "*.lock" == "*" + ".lock";
    GlobStarSuffix("file.lock", ".lock");
    GlobStarSuffix("file.txt", ".lock");
    assert "file.txt"[8 - 5..] != ".lock";
  }

  lemma MatchesLiteralExamples()
    ensures MatchesPattern("package-lock.json", "package-lock.json")
    ensures !MatchesPattern("package.json", "package-lock.json")
  {
    assert !EndsWith("package-lock.json", "/*");
    GlobLiteral("package-lock.json", "package-lock.json");
    GlobLiteral("package.json", "package-lock.json");
  }

  lemma MatchesDirectoryExamples()
    ensures MatchesPattern("dist", "dist/*") && MatchesPattern("dist/bundle.js", "dist/*")
    ensures MatchesPattern("node_modules/package/index.js", "node_modules/*")
    ensures !MatchesPattern("src/dist/file.js", "dist/*")
  {
    assert "dist/*"[..4] == "dist";
    assert "node_modules/*"[..12] == "node_modules";
    assert "dist/bundle.js"[..5] == "dist/";
    assert "node_modules/package/index.js"[..13] == "node_modules/";
    assert "src/dist/file.js"[..5][0] != "dist/"[0];
  }

  // ---------------------------------------------------------------------
  // should_filter_file

  /** Why a file is filtered or kept. */
  datatype FilterReason = Missing | TooLarge | IgnoredBy(pattern: string) | Kept

  /** The path as the pattern test sees it: backslashes become slashes. */
  function ForwardSlashes(path: string): (r: string)
    ensures |r| == |path|
    ensures forall i :: 0 <= i < |path| ==> r[i] == if path[i] == '\\' then '/' else path[i]
  {
    if |path| == 0 then "" else [if path[0] == '\\' then '/' else path[0]] + ForwardSlashes(path[1..])
  }

  /** `should_filter_file(file_path)`, with `Path.exists()` as `present`,
      `stat().st_size` as `size` (None when stat fails) and the text of
      `.opencommitignore` as `ignoreFile`. The checks run in order: a missing
      file is kept, an oversized one filtered, then the ignore patterns decide.
      Which matching pattern is reported depends on set iteration order, so only
      that some matching pattern is reported is promised. */
  method ShouldFilterFile(filePath: string, present: bool, size: Option<int>, ignoreFile: Option<string>)
    returns (filtered: bool, reason: FilterReason)
    ensures !present ==> !filtered && reason == Missing
    ensures present && size.Some? && size.value > MaxFileSize ==> filtered && reason == TooLarge
    ensures present && !(size.Some? && size.value > MaxFileSize) ==>
      && (filtered <==> exists p :: p in IgnorePatterns(ignoreFile) && MatchesPattern(ForwardSlashes(filePath), p))
      && (filtered ==> (reason.IgnoredBy? && reason.pattern in IgnorePatterns(ignoreFile)
                        && MatchesPattern(ForwardSlashes(filePath), reason.pattern)))
      && (!filtered ==> reason == Kept)
  {
    if !present {
      return false, Missing;
    }
    if size.Some? && size.value > MaxFileSize {
      return true, TooLarge;
    }
    var patterns := GetOpencommitIgnore(ignoreFile);
    var normalized := ForwardSlashes(filePath);
    var remaining := patterns;
    while remaining != {}
      invariant remaining <= patterns
      invariant forall p :: p in patterns - remaining ==> !MatchesPattern(normalized, p)
      decreases |remaining|
    {
      var p :| p in remaining;
      if MatchesPattern(normalized, p) {
        return true, IgnoredBy(p);
      }
      remaining := remaining - {p};
    }
    return false, Kept;
  }
}
