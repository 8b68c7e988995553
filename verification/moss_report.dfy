/**
 Post-processing of the reports the plagiarism service (Moss) returns: the
 line filter that drops matches between two submissions of one user, the
 parsing of the report's result anchors into `Plagiarism` records, and the
 final threshold and ranking.

 A saved report is a list of lines. Each match of its table spans three
 lines: a row opening with `<TR><TD>` whose cell links the first submission,
 the line holding the second submission's cell, and an alignment line. A
 submission is shown as `generated/<problem>/<user>/<file> (<nn>%)`.
 */
module MossReport {
  import opened Outcomes
  import opened Strings
  import opened CpcTypes
  import Seqs

  /** The opening of a match row of the report table. */
  const RowStart: string := "<TR><TD>"

  // ---------------------------------------------------------------------
  // the user of a report line
  // ---------------------------------------------------------------------

  /** `_get_user_from_html_line`: the text that starts one character after
      the first occurrence of the problem alias and runs up to the next `/`.
      Both searches raise `ValueError` when they find nothing. */
  function UserFromHtmlLine(line: string, alias: string): (r: Result<string>)
    ensures r.Ok? ==> '/' !in r.value
    ensures !Contains(line, alias) ==> r.Err?
  {
    IndexFindsContained(line, alias);
    match IndexFrom(line, alias, 0)
    case None => Err(ValueError("substring not found"))
    case Some(at) => UpToSlash(line, at + |alias| + 1)
  }

  /** The text from `start` up to the next `/`; `ValueError` without one. */
  function UpToSlash(line: string, start: nat): (r: Result<string>)
    ensures r.Ok? ==> '/' !in r.value
  {
    match IndexFrom(line, "/", start)
    case None => Err(ValueError("substring not found"))
    case Some(slash) =>
      UserSlice(line, start, slash);
      Ok(line[start..slash])
  }

  /** A user that is read is followed by a `/` and starts one character
      after the first occurrence of the alias. */
  lemma UserFollowsAlias(line: string, alias: string)
    requires UserFromHtmlLine(line, alias).Ok?
    ensures exists i ::
              && OccursAt(line, alias, i) && (forall j :: 0 <= j < i ==> !OccursAt(line, alias, j))
              && OccursAt(line, UserFromHtmlLine(line, alias).value + "/", i + |alias| + 1)
  {
    var at := IndexFrom(line, alias, 0).value;
    var start := at + |alias| + 1;
    assert UserFromHtmlLine(line, alias) == UpToSlash(line, start);
    var slash := IndexFrom(line, "/", start).value;
    assert UpToSlash(line, start).value == line[start..slash];
    UserSlice(line, start, slash);
    assert OccursAt(line, alias, at) && forall j :: 0 <= j < at ==> !OccursAt(line, alias, j);
  }

  /** The text between `start` and the first `/` from `start` on holds no
      `/` and is followed by one. */
  lemma UserSlice(line: string, start: nat, slash: nat)
    requires start <= slash && OccursAt(line, "/", slash)
    requires forall j :: start <= j < slash ==> !OccursAt(line, "/", j)
    ensures '/' !in line[start..slash]
    ensures OccursAt(line, line[start..slash] + "/", start)
  {
    var user := line[start..slash];
    forall j | start <= j < slash ensures line[j] != '/' {
      OccursAtChar(line, '/', j);
    }
    OccursAtChar(line, '/', slash);
    assert line[start..slash + 1] == user + "/";
  }

  /** A line in which the alias first occurs right after `before`, followed
      by one character, the user and a `/`, yields exactly that user. */
  lemma UserFromRowLine(before: string, alias: string, c: char, user: string, after: string)
    requires '/' !in user
    requires forall j :: 0 <= j < |before| ==> !OccursAt(before + alias + [c] + user + "/" + after, alias, j)
    ensures UserFromHtmlLine(before + alias + [c] + user + "/" + after, alias) == Ok(user)
  {
    var line := before + alias + [c] + user + "/" + after;
    var head := before + alias + [c];
    assert line == head + (user + "/") + after;
    assert line[|before|..|before| + |alias|] == alias;
    UserAfterFirstAlias(line, alias, |before|, user);
  }

  /** The user read from a line whose first alias is at `at`, with the user
      and a `/` one character after it. */
  lemma UserAfterFirstAlias(line: string, alias: string, at: nat, user: string)
    requires '/' !in user
    requires OccursAt(line, alias, at) && forall j :: 0 <= j < at ==> !OccursAt(line, alias, j)
    requires at + |alias| + 1 + |user| < |line|
    requires line[at + |alias| + 1..at + |alias| + 1 + |user| + 1] == user + "/"
    ensures UserFromHtmlLine(line, alias) == Ok(user)
  {
    var start := at + |alias| + 1;
    IndexFromFirst(line, alias, 0, at);
    UserThenSlash(line, user, start);
    UserBetween(line, alias, at, start + |user|);
    ResultOk(UserFromHtmlLine(line, alias), user);
  }

  /** A user without `/` followed by a `/` is the text from its start up
      to the first `/`. */
  lemma UserThenSlash(line: string, user: string, start: nat)
    requires '/' !in user
    requires start + |user| < |line| && line[start..start + |user| + 1] == user + "/"
    ensures IndexFrom(line, "/", start) == Some(start + |user|)
    ensures line[start..start + |user|] == user
  {
    SlashAfterUser(line, user, start);
    IndexFromFirst(line, "/", start, start + |user|);
    forall j | 0 <= j < |user| ensures line[start + j] == user[j] {
      assert line[start..start + |user| + 1][j] == (user + "/")[j];
    }
  }

  /** A successful result is `Ok` of its value. */
  lemma ResultOk<T>(r: Result<T>, v: T)
    requires r.Ok? && r.value == v
    ensures r == Ok(v)
  {
  }

  /** The user read once both searches have succeeded. */
  lemma UserBetween(line: string, alias: string, at: nat, slash: nat)
    requires IndexFrom(line, alias, 0) == Some(at)
    requires IndexFrom(line, "/", at + |alias| + 1) == Some(slash)
    ensures UserFromHtmlLine(line, alias).Ok?
    ensures UserFromHtmlLine(line, alias).value == line[at + |alias| + 1..slash]
  {
    assert UserFromHtmlLine(line, alias) == UpToSlash(line, at + |alias| + 1);
  }

  lemma SlashAfterUser(line: string, user: string, start: nat)
    requires '/' !in user
    requires start + |user| < |line| && line[start..start + |user| + 1] == user + "/"
    ensures OccursAt(line, "/", start + |user|)
    ensures forall j :: start <= j < start + |user| ==> !OccursAt(line, "/", j)
  {
    OccursAtChar(line, '/', start + |user|);
    assert line[start + |user|] == (user + "/")[|user|];
    forall j | start <= j < start + |user|
      ensures !OccursAt(line, "/", j)
    {
      OccursAtChar(line, '/', j);
      assert line[j] == (user + "/")[j - start] == user[j - start];
    }
  }

  // ---------------------------------------------------------------------
  // the same-user filter
  // ---------------------------------------------------------------------

  /** What the filter's loop handles in one step: a match row together
      with the two lines after it, or a single other line. */
  datatype Segment =
    | Row(first: string, second: string, align: string)
    | Plain(line: string)
  {
    /** The line the loop looked at when it formed this segment. */
    function Visited(): string {
      if Row? then first else line
    }

    function Lines(): seq<string> {
      if Row? then [first, second, align] else [line]
    }
  }

  /** The lines of consecutive segments, in order. */
  function SegmentsLines(segs: seq<Segment>): seq<string>
    decreases |segs|
  {
    if |segs| == 0 then [] else segs[0].Lines() + SegmentsLines(segs[1..])
  }

  /** The segments the filter's loop forms when it starts at `idx`: it stops
      as soon as fewer than three lines remain from its position, so the
      last one or two lines are never looked at on their own. */
  function Scan(lines: seq<string>, idx: nat): (segs: seq<Segment>)
    requires idx <= |lines|
    ensures forall k :: 0 <= k < |segs| ==> (segs[k].Row? <==> StartsWith(segs[k].Visited(), RowStart))
    decreases |lines| - idx
  {
    if idx + 2 >= |lines| then []
    else if StartsWith(lines[idx], RowStart) then
      [Row(lines[idx], lines[idx + 1], lines[idx + 2])] + Scan(lines, idx + 3)
    else
      [Plain(lines[idx])] + Scan(lines, idx + 1)
  }

  /** The index at which the filter's loop stops when it starts at `idx`. */
  function ScanEnd(lines: seq<string>, idx: nat): (e: nat)
    requires idx <= |lines|
    ensures idx <= e <= |lines| && |lines| <= e + 2
    decreases |lines| - idx
  {
    if idx + 2 >= |lines| then idx
    else if StartsWith(lines[idx], RowStart) then ScanEnd(lines, idx + 3)
    else ScanEnd(lines, idx + 1)
  }

  /** The segments cover the lines from `idx` up to where the loop stops,
      each line exactly once and in order. */
  lemma {:induction false} ScanCovers(lines: seq<string>, idx: nat)
    requires idx <= |lines|
    ensures SegmentsLines(Scan(lines, idx)) == lines[idx..ScanEnd(lines, idx)]
    decreases |lines| - idx
  {
    if idx + 2 < |lines| {
      var segs := Scan(lines, idx);
      var next := if StartsWith(lines[idx], RowStart) then idx + 3 else idx + 1;
      ScanStep(lines, idx);
      ScanCovers(lines, next);
      assert SegmentsLines(segs) == segs[0].Lines() + SegmentsLines(Scan(lines, next));
      assert lines[idx..ScanEnd(lines, idx)] == lines[idx..next] + lines[next..ScanEnd(lines, next)];
    }
  }

  /** A line among the last two is covered only as part of a match row:
      when the loop stops there, the last segment is a row. */
  lemma {:induction false} ScanEndsWithRow(lines: seq<string>, idx: nat)
    requires idx <= |lines|
    ensures |Scan(lines, idx)| > 0 && ScanEnd(lines, idx) > |lines| - 2
            ==> Scan(lines, idx)[|Scan(lines, idx)| - 1].Row?
    decreases |lines| - idx
  {
    if idx + 2 < |lines| {
      var next := if StartsWith(lines[idx], RowStart) then idx + 3 else idx + 1;
      ScanStep(lines, idx);
      ScanEndsWithRow(lines, next);
      var segs, rest := Scan(lines, idx), Scan(lines, next);
      assert segs == [segs[0]] + rest;
      if |rest| > 0 {
        assert segs[|segs| - 1] == rest[|rest| - 1];
      }
    }
  }

  /** One step of the loop from `idx`. */
  lemma ScanStep(lines: seq<string>, idx: nat)
    requires idx + 2 < |lines|
    ensures var next := if StartsWith(lines[idx], RowStart) then idx + 3 else idx + 1;
            && Scan(lines, idx)[0].Lines() == lines[idx..next]
            && Scan(lines, idx)[1..] == Scan(lines, next)
            && ScanEnd(lines, idx) == ScanEnd(lines, next)
  {
  }

  /** Handling one more segment. */
  lemma KeepAllCons(seg: Segment, rest: seq<Segment>, alias: string)
    ensures KeepAll([seg] + rest, alias)
            == if KeepSegment(seg, alias).Err? then Err(KeepSegment(seg, alias).error)
               else Prepend(KeepSegment(seg, alias).value, KeepAll(rest, alias))
  {
    assert ([seg] + rest)[0] == seg && ([seg] + rest)[1..] == rest;
  }

  /** The lines one segment contributes to the filtered report, or the
      error raised while reading the users of a match row. */
  function KeepSegment(seg: Segment, alias: string): (r: Result<seq<string>>)
    ensures r.Ok? ==> r.value == seg.Lines() || r.value == []
  {
    match seg
    case Plain(line) => Ok([line])
    case Row(first, second, align) =>
      var firstUser :- UserFromHtmlLine(first, alias);
      var secondUser :- UserFromHtmlLine(second, alias);
      Ok(if firstUser != secondUser then [first, second, align] else [])
  }

  /** The segments handled in order; the first error ends the filter. */
  function KeepAll(segs: seq<Segment>, alias: string): (r: Result<seq<string>>)
    decreases |segs|
  {
    if |segs| == 0 then Ok([])
    else
      var here :- KeepSegment(segs[0], alias);
      var rest :- KeepAll(segs[1..], alias);
      Ok(here + rest)
  }

  /** `_remove_same_user_matches` on the lines of the saved report: the
      lines written to the filtered report, or the error that stops it. */
  function FilterReport(lines: seq<string>, alias: string): (r: Result<seq<string>>)
    ensures |lines| < 3 ==> r == Ok([])
  {
    KeepAll(Scan(lines, 0), alias)
  }

  /** `r` with `prefix` written in front when it is a success. */
  function Prepend(prefix: seq<string>, r: Result<seq<string>>): Result<seq<string>> {
    match r
    case Ok(rest) => Ok(prefix + rest)
    case Err(e) => Err(e)
  }

  /** The filter as the source writes it, a loop over the line index. */
  method RemoveSameUserMatches(lines: seq<string>, alias: string) returns (r: Result<seq<string>>)
    ensures r == FilterReport(lines, alias)
  {
    var written: seq<string> := [];
    var idx := 0;
    PrependNothing(FilterReport(lines, alias));
    while idx < |lines| - 2
      invariant 0 <= idx <= |lines|
      invariant FilterReport(lines, alias) == Prepend(written, KeepAll(Scan(lines, idx), alias))
      decreases |lines| - idx
    {
      var line := lines[idx];
      var nextLine := lines[idx + 1];
      if StartsWith(line, RowStart) {
        RowStep(lines, idx, alias, written);
        var firstUser :- UserFromHtmlLine(line, alias);
        var secondUser :- UserFromHtmlLine(nextLine, alias);
        if firstUser != secondUser {
          written := written + [line, nextLine, lines[idx + 2]];
        }
        idx := idx + 2;
      } else {
        PlainStep(lines, idx, alias, written);
        written := written + [line];
      }
      idx := idx + 1;
    }
    assert written + [] == written;
    return Ok(written);
  }

  /** One turn of the loop at a match row. */
  lemma RowStep(lines: seq<string>, idx: nat, alias: string, written: seq<string>)
    requires idx + 2 < |lines| && StartsWith(lines[idx], RowStart)
    ensures var u1 := UserFromHtmlLine(lines[idx], alias);
            var u2 := UserFromHtmlLine(lines[idx + 1], alias);
            var rest := KeepAll(Scan(lines, idx + 3), alias);
            Prepend(written, KeepAll(Scan(lines, idx), alias))
            == if u1.Err? then Err(u1.error)
               else if u2.Err? then Err(u2.error)
               else if u1.value != u2.value then Prepend(written + [lines[idx], lines[idx + 1], lines[idx + 2]], rest)
               else Prepend(written, rest)
  {
    var seg := Row(lines[idx], lines[idx + 1], lines[idx + 2]);
    assert Scan(lines, idx) == [seg] + Scan(lines, idx + 3);
    KeepAllCons(seg, Scan(lines, idx + 3), alias);
    var rest := KeepAll(Scan(lines, idx + 3), alias);
    PrependTwice(written, seg.Lines(), rest);
    PrependTwice(written, [], rest);
    assert written + [] == written;
  }

  /** One turn of the loop at any other line. */
  lemma PlainStep(lines: seq<string>, idx: nat, alias: string, written: seq<string>)
    requires idx + 2 < |lines| && !StartsWith(lines[idx], RowStart)
    ensures Prepend(written, KeepAll(Scan(lines, idx), alias))
            == Prepend(written + [lines[idx]], KeepAll(Scan(lines, idx + 1), alias))
  {
    assert Scan(lines, idx) == [Plain(lines[idx])] + Scan(lines, idx + 1);
    KeepAllCons(Plain(lines[idx]), Scan(lines, idx + 1), alias);
    PrependTwice(written, [lines[idx]], KeepAll(Scan(lines, idx + 1), alias));
  }

  lemma PrependNothing(r: Result<seq<string>>)
    ensures Prepend([], r) == r
  {
    if r.Ok? {
      assert [] + r.value == r.value;
    }
  }

  lemma PrependTwice(a: seq<string>, b: seq<string>, r: Result<seq<string>>)
    ensures Prepend(a, Prepend(b, r)) == Prepend(a + b, r)
  {
    if r.Ok? {
      assert a + (b + r.value) == (a + b) + r.value;
    }
  }

  /** A match row kept by the filter: both users readable and different. */
  predicate Survives(seg: Segment, alias: string) {
    || seg.Plain?
    || (&& UserFromHtmlLine(seg.first, alias).Ok?
        && UserFromHtmlLine(seg.second, alias).Ok?
        && UserFromHtmlLine(seg.first, alias).value != UserFromHtmlLine(seg.second, alias).value)
  }

  /** A match row one of whose users cannot be read. */
  predicate Unreadable(seg: Segment, alias: string) {
    seg.Row? && (UserFromHtmlLine(seg.first, alias).Err? || UserFromHtmlLine(seg.second, alias).Err?)
  }

  /** The segments that survive, in order. */
  function Survivors(segs: seq<Segment>, alias: string): seq<Segment>
    decreases |segs|
  {
    if |segs| == 0 then []
    else (if Survives(segs[0], alias) then [segs[0]] else []) + Survivors(segs[1..], alias)
  }

  lemma {:induction false} KeepAllSurvivors(segs: seq<Segment>, alias: string)
    ensures KeepAll(segs, alias).Err? <==> exists k | 0 <= k < |segs| :: Unreadable(segs[k], alias)
    ensures KeepAll(segs, alias).Ok? ==> KeepAll(segs, alias).value == SegmentsLines(Survivors(segs, alias))
  {
    KeepAllFails(segs, alias);
    KeepAllValue(segs, alias);
  }

  /** What one segment contributes: an error exactly for an unreadable
      row, otherwise its lines when it survives and nothing when not. */
  lemma KeepSegmentSurvives(seg: Segment, alias: string)
    ensures KeepSegment(seg, alias).Err? <==> Unreadable(seg, alias)
    ensures KeepSegment(seg, alias).Ok?
            ==> KeepSegment(seg, alias).value == if Survives(seg, alias) then seg.Lines() else []
  {
  }

  lemma {:induction false} KeepAllFails(segs: seq<Segment>, alias: string)
    ensures KeepAll(segs, alias).Err? <==> exists k | 0 <= k < |segs| :: Unreadable(segs[k], alias)
    decreases |segs|
  {
    if |segs| > 0 {
      KeepAllFails(segs[1..], alias);
      KeepSegmentSurvives(segs[0], alias);
      if exists k | 0 <= k < |segs[1..]| :: Unreadable(segs[1..][k], alias) {
        var k :| 0 <= k < |segs[1..]| && Unreadable(segs[1..][k], alias);
        assert Unreadable(segs[k + 1], alias);
      }
      if exists k | 0 <= k < |segs| :: Unreadable(segs[k], alias) {
        var k :| 0 <= k < |segs| && Unreadable(segs[k], alias);
        if k > 0 {
          assert Unreadable(segs[1..][k - 1], alias);
        }
      }
    }
  }

  lemma {:induction false} KeepAllValue(segs: seq<Segment>, alias: string)
    ensures KeepAll(segs, alias).Ok? ==> KeepAll(segs, alias).value == SegmentsLines(Survivors(segs, alias))
    decreases |segs|
  {
    if |segs| > 0 && KeepAll(segs, alias).Ok? {
      var rest := Survivors(segs[1..], alias);
      KeepAllValue(segs[1..], alias);
      KeepSegmentSurvives(segs[0], alias);
      assert KeepAll(segs, alias).value == KeepSegment(segs[0], alias).value + KeepAll(segs[1..], alias).value;
      if Survives(segs[0], alias) {
        assert ([segs[0]] + rest)[1..] == rest;
      } else {
        assert [] + rest == rest;
      }
    }
  }

  /** The filter fails exactly when a match row it looks at has a user that
      cannot be read; otherwise it writes every other line it looks at and
      exactly the match rows whose two users differ, each with its two
      following lines. */
  lemma FilterKeepsRowsOfDifferentUsers(lines: seq<string>, alias: string)
    ensures var segs := Scan(lines, 0);
            FilterReport(lines, alias).Err? <==> exists k | 0 <= k < |segs| :: Unreadable(segs[k], alias)
    ensures FilterReport(lines, alias).Ok?
            ==> FilterReport(lines, alias).value == SegmentsLines(Survivors(Scan(lines, 0), alias))
  {
    assert FilterReport(lines, alias) == KeepAll(Scan(lines, 0), alias);
    KeepAllSurvivors(Scan(lines, 0), alias);
  }

  lemma {:induction false} KeepAllSubsequence(segs: seq<Segment>, alias: string)
    requires KeepAll(segs, alias).Ok?
    ensures Seqs.IsSubsequence(KeepAll(segs, alias).value, SegmentsLines(segs))
    decreases |segs|
  {
    if |segs| == 0 {
      Seqs.SubsequenceOfSelf<string>([]);
    } else {
      var here := KeepSegment(segs[0], alias).value;
      var rest := KeepAll(segs[1..], alias).value;
      KeepAllSubsequence(segs[1..], alias);
      if here == [] {
        Seqs.SubsequenceSkipPrefix(rest, segs[0].Lines(), SegmentsLines(segs[1..]));
        assert here + rest == rest;
      } else {
        Seqs.SubsequenceSharedPrefix(rest, here, SegmentsLines(segs[1..]));
      }
    }
  }

  /** The filtered report keeps the order of the saved report's lines and
      is never longer; the last two lines survive only inside a kept row. */
  lemma FilterIsSubsequence(lines: seq<string>, alias: string)
    requires FilterReport(lines, alias).Ok?
    ensures Seqs.IsSubsequence(FilterReport(lines, alias).value, lines)
    ensures |FilterReport(lines, alias).value| <= |lines|
  {
    var out := FilterReport(lines, alias).value;
    var e := ScanEnd(lines, 0);
    assert Seqs.IsSubsequence(out, lines[..e]) by {
      KeepAllSubsequence(Scan(lines, 0), alias);
      ScanCovers(lines, 0);
      assert lines[0..e] == lines[..e];
    }
    Seqs.SubsequenceSkipSuffix(out, lines[..e], lines[e..]);
    assert lines[..e] + lines[e..] == lines;
    Seqs.SubsequenceLength(out, lines);
  }

  lemma {:induction false} PlainLinesCopied(lines: seq<string>, alias: string, idx: nat)
    requires idx + 2 <= |lines|
    requires forall k :: 0 <= k < |lines| - 2 ==> !StartsWith(lines[k], RowStart)
    ensures KeepAll(Scan(lines, idx), alias) == Ok(lines[idx..|lines| - 2])
    decreases |lines| - idx
  {
    if idx + 2 < |lines| {
      PlainLinesCopied(lines, alias, idx + 1);
      assert Scan(lines, idx) == [Plain(lines[idx])] + Scan(lines, idx + 1);
      assert lines[idx..|lines| - 2] == [lines[idx]] + lines[idx + 1..|lines| - 2];
    }
  }

  /** A report without match rows loses only its last two lines. */
  lemma PlainReportCopied(lines: seq<string>, alias: string)
    requires |lines| >= 2
    requires forall k :: 0 <= k < |lines| - 2 ==> !StartsWith(lines[k], RowStart)
    ensures FilterReport(lines, alias) == Ok(lines[..|lines| - 2])
  {
    PlainLinesCopied(lines, alias, 0);
    assert lines[0..|lines| - 2] == lines[..|lines| - 2];
  }

  // ---------------------------------------------------------------------
  // the text of a result anchor
  // ---------------------------------------------------------------------

  /** The fields `_get_results_information` returns. */
  datatype ResultsInfo = ResultsInfo(problemAlias: string, username: string, fileName: string, status: string)

  /** `_get_results_information`: the text must split on `/` into exactly
      four parts and its last part on ` ` into exactly two; otherwise the
      tuple unpacking raises `ValueError`. */
  function ResultsInformation(text: string): (r: Result<ResultsInfo>)
    ensures r.Ok? ==> '/' !in r.value.problemAlias && '/' !in r.value.username
    ensures r.Ok? ==> ' ' !in r.value.fileName && ' ' !in r.value.status
  {
    var content := Split(text, '/');
    if |content| != 4 then Err(ValueError("wrong number of values to unpack"))
    else
      var fileAndStatus := Split(content[3], ' ');
      if |fileAndStatus| != 2 then Err(ValueError("wrong number of values to unpack"))
      else Ok(ResultsInfo(content[1], content[2], fileAndStatus[0], fileAndStatus[1]))
  }

  /** The pieces of an anchor text carry no separator of their own. */
  predicate PathFields(root: string, info: ResultsInfo) {
    && '/' !in root && '/' !in info.problemAlias && '/' !in info.username
    && '/' !in info.fileName && '/' !in info.status
    && ' ' !in info.fileName && ' ' !in info.status
  }

  /** The anchor text Moss shows for a submission: `root/problem/user/file status`. */
  function AnchorText(root: string, info: ResultsInfo): string {
    root + "/" + info.problemAlias + "/" + info.username + "/" + info.fileName + " " + info.status
  }

  lemma AnchorTextJoins(root: string, info: ResultsInfo)
    ensures AnchorText(root, info)
            == Join([root, info.problemAlias, info.username, Join([info.fileName, info.status], ' ')], '/')
  {
    JoinTwo(info.fileName, info.status, ' ');
    JoinFour(root, info.problemAlias, info.username, info.fileName + " " + info.status, '/');
  }

  /** Reading an anchor text recovers the fields it was built from. */
  lemma ResultsInformationRoundTrip(root: string, info: ResultsInfo)
    requires PathFields(root, info)
    ensures ResultsInformation(AnchorText(root, info)) == Ok(info)
  {
    var tail := Join([info.fileName, info.status], ' ');
    AnchorTextJoins(root, info);
    SplitJoin([info.fileName, info.status], ' ');
    JoinTwo(info.fileName, info.status, ' ');
    assert '/' !in tail;
    SplitJoin([root, info.problemAlias, info.username, tail], '/');
  }

  /** Exactly the texts of the form `root/problem/user/file status` are read
      without error. */
  lemma ResultsInformationShape(text: string)
    ensures ResultsInformation(text).Ok?
            <==> exists root, info :: PathFields(root, info) && text == AnchorText(root, info)
  {
    if ResultsInformation(text).Ok? {
      var content := Split(text, '/');
      var fileAndStatus := Split(content[3], ' ');
      var info := ResultsInformation(text).value;
      assert fileAndStatus == [info.fileName, info.status];
      JoinTwo(info.fileName, info.status, ' ');
      assert content[3] == info.fileName + " " + info.status;
      assert '/' !in content[0] && '/' !in content[3];
      assert PathFields(content[0], info);
      AnchorTextJoins(content[0], info);
      assert content == [content[0], info.problemAlias, info.username, content[3]];
      assert text == AnchorText(content[0], info);
    }
    if exists root, info :: PathFields(root, info) && text == AnchorText(root, info) {
      var root, info :| PathFields(root, info) && text == AnchorText(root, info);
      ResultsInformationRoundTrip(root, info);
    }
  }

  // ---------------------------------------------------------------------
  // the similarity percentage
  // ---------------------------------------------------------------------

  /** The status Moss shows for a similarity of `n` percent: `(n%)`. */
  function Percent(n: nat): string {
    "(" + Decimal(n) + "%)"
  }

  /** `_get_similarity_perc`, and `status_as_int` of the web page, which is
      the same function: drop every `(`, `)` and `%`, then `int()`. */
  function SimilarityPerc(status: string): (r: Result<nat>)
    ensures r.Ok? ==> forall k :: 0 <= k < |status| ==> IsDigit(status[k]) || status[k] in "()%"
  {
    var digits := Without(Without(Without(status, '('), ')'), '%');
    var r := ParseInt(digits);
    assert r.Ok? ==> forall k :: 0 <= k < |status| ==> IsDigit(status[k]) || status[k] in "()%" by {
      if r.Ok? {
        forall k | 0 <= k < |status| && status[k] !in "()%"
          ensures IsDigit(status[k])
        {
          assert status[k] in digits;
        }
      }
    }
    r
  }

  /** Removing `(` from a status leaves the digits and `%)`. */
  lemma DropOpen(d: string)
    requires '(' !in d
    ensures Without("(" + d + "%)", '(') == d + "%)"
  {
    var rest := d + "%)";
    assert "(" + d + "%)" == "(" + rest;
    assert '(' !in rest;
    WithoutAbsent(rest, '(');
    WithoutConcat("(", rest, '(');
    assert Without("(", '(') == "";
  }

  /** Removing `)` from the digits and `%)` leaves the digits and `%`. */
  lemma DropClose(d: string)
    requires ')' !in d
    ensures Without(d + "%)", ')') == d + "%"
  {
    WithoutConcat(d, "%)", ')');
    WithoutAbsent(d, ')');
    assert Without("%)", ')') == "%";
  }

  /** Removing `%` from the digits and `%` leaves the digits. */
  lemma DropPercent(d: string)
    requires '%' !in d
    ensures Without(d + "%", '%') == d
  {
    WithoutConcat(d, "%", '%');
    WithoutAbsent(d, '%');
    assert Without("%", '%') == "";
  }

  /** Reading the status of a similarity of `n` percent gives back `n`. */
  lemma SimilarityPercRoundTrip(n: nat)
    ensures SimilarityPerc(Percent(n)) == Ok(n)
  {
    var d := Decimal(n);
    assert forall c :: c in d ==> IsDigit(c);
    DropOpen(d);
    DropClose(d);
    DropPercent(d);
    DecimalRoundTrip(n);
  }

  // ---------------------------------------------------------------------
  // result anchors, read two at a time
  // ---------------------------------------------------------------------

  /** An `<a>` element of the filtered report: its `href`, the text of its
      first child, and whether its markup mentions `results` anywhere. */
  datatype Anchor = Anchor(href: string, text: string, mentionsResults: bool)

  /** A pair of anchors describing one match. */
  predicate IsMatchPair(a: Anchor, b: Anchor) {
    a.mentionsResults && b.mentionsResults
  }

  /** The loop `for idx in range(0, len(a_tags), 2)`: anchors are taken in
      pairs (0, 1), (2, 3), ...; a pair describing a match is turned into a
      record by `build`, any other pair is skipped, and an odd anchor count
      reads past the end (`IndexError`) once the earlier pairs are done. */
  function PairUp<T>(anchors: seq<Anchor>, build: (Anchor, Anchor) -> Result<T>): (r: Result<seq<T>>)
    ensures |anchors| % 2 == 1 ==> r.Err?
    ensures r.Ok? ==> |r.value| <= |anchors| / 2
    decreases |anchors|
  {
    if |anchors| == 0 then Ok([])
    else if |anchors| == 1 then Err(IndexError)
    else
      var here :- if IsMatchPair(anchors[0], anchors[1]) then (var x :- build(anchors[0], anchors[1]); Ok([x])) else Ok([]);
      var rest :- PairUp(anchors[2..], build);
      Ok(here + rest)
  }

  /** The pairs of anchors that describe matches, in report order. */
  function MatchPairs(anchors: seq<Anchor>): seq<(Anchor, Anchor)>
    decreases |anchors|
  {
    if |anchors| < 2 then []
    else (if IsMatchPair(anchors[0], anchors[1]) then [(anchors[0], anchors[1])] else [])
         + MatchPairs(anchors[2..])
  }

  /** A pair is a match pair exactly when it is made of the anchors at an
      even position and the position after it, and both mention results. */
  lemma {:induction false} MatchPairsAligned(anchors: seq<Anchor>, a: Anchor, b: Anchor)
    ensures (a, b) in MatchPairs(anchors)
            <==> IsMatchPair(a, b)
                 && exists i | 0 <= i < |anchors| - 1 && i % 2 == 0 :: anchors[i] == a && anchors[i + 1] == b
    decreases |anchors|
  {
    if |anchors| >= 2 {
      var rest := anchors[2..];
      MatchPairsAligned(rest, a, b);
      if exists i | 0 <= i < |rest| - 1 && i % 2 == 0 :: rest[i] == a && rest[i + 1] == b {
        var i :| 0 <= i < |rest| - 1 && i % 2 == 0 && rest[i] == a && rest[i + 1] == b;
        assert anchors[i + 2] == a && anchors[i + 2 + 1] == b;
      }
      if exists i | 0 <= i < |anchors| - 1 && i % 2 == 0 :: anchors[i] == a && anchors[i + 1] == b {
        var i :| 0 <= i < |anchors| - 1 && i % 2 == 0 && anchors[i] == a && anchors[i + 1] == b;
        if i >= 2 {
          assert rest[i - 2] == a && rest[i - 2 + 1] == b;
        }
      }
    }
  }

  /** Every pair in `ps` builds a record. */
  predicate AllBuild<T>(ps: seq<(Anchor, Anchor)>, build: (Anchor, Anchor) -> Result<T>) {
    forall j | 0 <= j < |ps| :: build(ps[j].0, ps[j].1).Ok?
  }

  /** `records` are the records the pairs `ps` build, one for one. */
  ghost predicate BuiltFrom<T>(records: seq<T>, ps: seq<(Anchor, Anchor)>, build: (Anchor, Anchor) -> Result<T>) {
    |records| == |ps| && forall j | 0 <= j < |ps| :: build(ps[j].0, ps[j].1) == Ok(records[j])
  }

  /** Reading the anchors succeeds exactly when their count is even and
      every match pair builds; the records then follow the match pairs one
      for one, in order. */
  lemma {:induction false} PairUpFollowsMatchPairs<T>(anchors: seq<Anchor>, build: (Anchor, Anchor) -> Result<T>)
    ensures PairUp(anchors, build).Ok? <==> |anchors| % 2 == 0 && AllBuild(MatchPairs(anchors), build)
    ensures PairUp(anchors, build).Ok? ==> BuiltFrom(PairUp(anchors, build).value, MatchPairs(anchors), build)
    decreases |anchors|
  {
    if |anchors| >= 2 {
      PairUpFollowsMatchPairs(anchors[2..], build);
      PairUpStep(anchors, build);
    }
  }

  /** The step of `PairUpFollowsMatchPairs` over the first pair. */
  lemma {:induction false} PairUpStep<T>(anchors: seq<Anchor>, build: (Anchor, Anchor) -> Result<T>)
    requires |anchors| >= 2
    requires PairUp(anchors[2..], build).Ok? <==> |anchors[2..]| % 2 == 0 && AllBuild(MatchPairs(anchors[2..]), build)
    requires PairUp(anchors[2..], build).Ok? ==> BuiltFrom(PairUp(anchors[2..], build).value, MatchPairs(anchors[2..]), build)
    ensures PairUp(anchors, build).Ok? <==> |anchors| % 2 == 0 && AllBuild(MatchPairs(anchors), build)
    ensures PairUp(anchors, build).Ok? ==> BuiltFrom(PairUp(anchors, build).value, MatchPairs(anchors), build)
  {
    var a, b := anchors[0], anchors[1];
    var rest := anchors[2..];
    var ps := MatchPairs(anchors);
    var tail := MatchPairs(rest);
    var r := PairUp(anchors, build);
    var rr := PairUp(rest, build);
    assert |rest| % 2 == |anchors| % 2;
    if IsMatchPair(a, b) {
      assert ps == [(a, b)] + tail;
      if build(a, b).Err? {
        assert r.Err?;
        assert ps[0] == (a, b);
      } else if rr.Err? {
        assert r.Err?;
        if |anchors| % 2 == 0 {
          var j :| 0 <= j < |tail| && build(tail[j].0, tail[j].1).Err?;
          assert ps[j + 1] == tail[j];
        }
      } else {
        var x := build(a, b).value;
        assert r == Ok([x] + rr.value);
        forall j | 0 <= j < |ps| ensures build(ps[j].0, ps[j].1) == Ok(r.value[j]) {
          if j > 0 {
            assert ps[j] == tail[j - 1];
            assert r.value[j] == rr.value[j - 1];
          }
        }
      }
    } else {
      assert ps == tail;
      if rr.Ok? {
        assert r == Ok([] + rr.value);
        assert [] + rr.value == rr.value;
      } else {
        assert r.Err?;
        if |anchors| % 2 == 0 {
          var j :| 0 <= j < |tail| && build(tail[j].0, tail[j].1).Err?;
          assert ps[j] == tail[j];
        }
      }
    }
  }

  // ---------------------------------------------------------------------
  // plagiarism records
  // ---------------------------------------------------------------------

  /** `name_by_username.get(username, username)` */
  function DisplayNameOf(username: string, nameByUsername: map<string, string>): string {
    if username in nameByUsername then nameByUsername[username] else username
  }

  /** The record for one match pair: problem, status and percentage come
      from the first anchor only, each user from its own anchor. */
  function RecordOf(html: MossHtml, nameByUsername: map<string, string>, a: Anchor, b: Anchor): (r: Result<Plagiarism>)
    ensures r.Ok? <==> && ResultsInformation(a.text).Ok? && ResultsInformation(b.text).Ok?
                       && SimilarityPerc(ResultsInformation(a.text).value.status).Ok?
    ensures r.Ok? ==> r.value.resultsUrl == a.href && r.value.language == html.language
    ensures r.Ok? ==> var first, second := ResultsInformation(a.text).value, ResultsInformation(b.text).value;
                      && r.value.problemAlias == first.problemAlias && r.value.status == first.status
                      && r.value.similarityPerc == SimilarityPerc(first.status).value
                      && r.value.usernames == (first.username, second.username)
                      && r.value.names == (DisplayNameOf(first.username, nameByUsername), DisplayNameOf(second.username, nameByUsername))
                      && r.value.fileNames == (first.fileName, second.fileName)
  {
    var first :- ResultsInformation(a.text);
    var second :- ResultsInformation(b.text);
    var perc :- SimilarityPerc(first.status);
    Ok(Plagiarism(
      usernames := (first.username, second.username),
      names := (DisplayNameOf(first.username, nameByUsername), DisplayNameOf(second.username, nameByUsername)),
      resultsUrl := a.href,
      problemAlias := first.problemAlias,
      language := html.language,
      fileNames := (first.fileName, second.fileName),
      status := first.status,
      similarityPerc := perc))
  }

  lemma PercentFields(n: nat)
    ensures '/' !in Percent(n) && ' ' !in Percent(n)
  {
    var d := Decimal(n);
    assert forall c :: c in d ==> IsDigit(c);
    assert Percent(n) == ['('] + d + ['%', ')'];
  }

  /** The record of two anchors Moss printed for a match of `n` percent
      holds each anchor's user and file, in anchor order, the names the
      scoreboard gives them, and the first anchor's link and status. */
  lemma RecordOfMatch(html: MossHtml, nameByUsername: map<string, string>,
                      a: Anchor, rootA: string, infoA: ResultsInfo,
                      b: Anchor, rootB: string, infoB: ResultsInfo, n: nat)
    requires infoA.status == Percent(n)
    requires PathFields(rootA, infoA) && PathFields(rootB, infoB)
    requires a.text == AnchorText(rootA, infoA) && b.text == AnchorText(rootB, infoB)
    ensures RecordOf(html, nameByUsername, a, b)
            == Ok(Plagiarism((infoA.username, infoB.username),
                             (DisplayNameOf(infoA.username, nameByUsername), DisplayNameOf(infoB.username, nameByUsername)),
                             a.href, infoA.problemAlias, html.language,
                             (infoA.fileName, infoB.fileName), Percent(n), n))
  {
    ResultsInformationRoundTrip(rootA, infoA);
    ResultsInformationRoundTrip(rootB, infoB);
    SimilarityPercRoundTrip(n);
  }

  /** How `_get_information_from_html` turns a match pair into a record. */
  function RecordBuilder(html: MossHtml, nameByUsername: map<string, string>): (Anchor, Anchor) -> Result<Plagiarism> {
    (a, b) => RecordOf(html, nameByUsername, a, b)
  }

  /** `_get_information_from_html` on the anchors of one filtered report. */
  function PlagiarismsFromHtml(html: MossHtml, anchors: seq<Anchor>, nameByUsername: map<string, string>): Result<seq<Plagiarism>> {
    PairUp(anchors, RecordBuilder(html, nameByUsername))
  }

  // ---------------------------------------------------------------------
  // threshold and ranking
  // ---------------------------------------------------------------------

  /** One filtered report together with the anchors read from it. */
  datatype SavedReport = SavedReport(html: MossHtml, anchors: seq<Anchor>)

  /** The records of every report, report by report. */
  function ParseReports(reports: seq<SavedReport>, nameByUsername: map<string, string>): (r: Result<seq<Plagiarism>>)
    decreases |reports|
  {
    if |reports| == 0 then Ok([])
    else
      var first :- PlagiarismsFromHtml(reports[0].html, reports[0].anchors, nameByUsername);
      var rest :- ParseReports(reports[1..], nameByUsername);
      Ok(first + rest)
  }

  /** Parsing fails exactly when the anchors of one of the reports cannot
      be read. */
  lemma {:induction false} ParseReportsFails(reports: seq<SavedReport>, nameByUsername: map<string, string>)
    ensures ParseReports(reports, nameByUsername).Err?
            <==> exists k | 0 <= k < |reports| ::
                   PlagiarismsFromHtml(reports[k].html, reports[k].anchors, nameByUsername).Err?
    decreases |reports|
  {
    if |reports| > 0 {
      ParseReportsFails(reports[1..], nameByUsername);
      if exists k | 0 <= k < |reports| :: PlagiarismsFromHtml(reports[k].html, reports[k].anchors, nameByUsername).Err? {
        var k :| 0 <= k < |reports| && PlagiarismsFromHtml(reports[k].html, reports[k].anchors, nameByUsername).Err?;
        if k > 0 {
          assert reports[1..][k - 1] == reports[k];
        }
      }
      if ParseReports(reports[1..], nameByUsername).Err? {
        var k :| 0 <= k < |reports[1..]| && PlagiarismsFromHtml(reports[1..][k].html, reports[1..][k].anchors, nameByUsername).Err?;
        assert reports[1..][k] == reports[k + 1];
      }
    }
  }

  /** The records whose similarity reaches the minimum, in order. */
  function AboveThreshold(ps: seq<Plagiarism>, minPerc: int): (r: seq<Plagiarism>)
    ensures forall p :: multiset(r)[p] == if p.similarityPerc >= minPerc then multiset(ps)[p] else 0
    decreases |ps|
  {
    if |ps| == 0 then []
    else
      assert ps == [ps[0]] + ps[1..];
      (if ps[0].similarityPerc >= minPerc then [ps[0]] else []) + AboveThreshold(ps[1..], minPerc)
  }

  /** The key of the ranking. */
  function Perc(p: Plagiarism): int {
    p.similarityPerc
  }

  /** The filter keeps reading order: the records of any similarity that
      reaches the minimum are all kept, in the order they were read, and
      none of a lower similarity is. */
  lemma {:induction false} AboveThresholdKeepsOrder(ps: seq<Plagiarism>, minPerc: int, k: int)
    ensures Seqs.WithKey(AboveThreshold(ps, minPerc), Perc, k)
            == if k >= minPerc then Seqs.WithKey(ps, Perc, k) else []
    decreases |ps|
  {
    if |ps| > 0 {
      var head := if ps[0].similarityPerc >= minPerc then [ps[0]] else [];
      AboveThresholdKeepsOrder(ps[1..], minPerc, k);
      assert AboveThreshold(ps, minPerc) == head + AboveThreshold(ps[1..], minPerc);
      Seqs.WithKeyConcat(head, AboveThreshold(ps[1..], minPerc), Perc, k);
      Seqs.WithKeyHead(ps, Perc, k);
      Seqs.WithKeySingle(ps[0], Perc, k);
      if head == [] {
        assert Seqs.WithKey(head, Perc, k) == [];
      }
    }
  }

  /** The tail of `check_plagiarism`: the records of all reports that reach
      the minimum, the most similar first. */
  function CheckPlagiarism(reports: seq<SavedReport>, minPerc: int, nameByUsername: map<string, string>): (r: Result<seq<Plagiarism>>)
    ensures r.Ok? <==> ParseReports(reports, nameByUsername).Ok?
  {
    var ps :- ParseReports(reports, nameByUsername);
    Ok(Seqs.SortByKeyDescending(AboveThreshold(ps, minPerc), Perc))
  }

  /** Every reported record reaches the minimum and comes from the reports;
      the records are ranked by non-increasing similarity; the ranking is a
      permutation of the records that reach the minimum; and records of
      equal similarity keep the order in which they were read. */
  lemma CheckPlagiarismRanks(reports: seq<SavedReport>, minPerc: int, nameByUsername: map<string, string>)
    requires ParseReports(reports, nameByUsername).Ok?
    ensures var ps := ParseReports(reports, nameByUsername).value;
            var r := CheckPlagiarism(reports, minPerc, nameByUsername).value;
            && (forall p :: p in r <==> p in ps && p.similarityPerc >= minPerc)
            && Seqs.NonIncreasing(r, Perc)
            && multiset(r) == multiset(AboveThreshold(ps, minPerc))
            && (forall k :: Seqs.WithKey(r, Perc, k) == if k >= minPerc then Seqs.WithKey(ps, Perc, k) else [])
  {
    var ps := ParseReports(reports, nameByUsername).value;
    var kept := AboveThreshold(ps, minPerc);
    var r := CheckPlagiarism(reports, minPerc, nameByUsername).value;
    Seqs.SortIsPermutation(kept, Perc);
    forall p ensures p in r <==> p in ps && p.similarityPerc >= minPerc {
      assert p in r <==> multiset(r)[p] > 0;
      assert p in ps <==> multiset(ps)[p] > 0;
    }
    forall k ensures Seqs.WithKey(r, Perc, k) == if k >= minPerc then Seqs.WithKey(ps, Perc, k) else [] {
      Seqs.SortIsStable(kept, Perc, k);
      AboveThresholdKeepsOrder(ps, minPerc, k);
    }
  }
}
