/**
 The suspicious-activity heuristics of the checker, applied to the runs of
 one contestant on one problem in the order the judge returned them.

 For each run the source is split into lines and three counters look for
 comment markers, accented vowels and exception names; consecutive runs in
 different languages submitted less than fifteen minutes apart are flagged;
 and using more than one language overall is flagged once at the end.
 */
module Heuristics {
  import opened Outcomes
  import opened Strings
  import Languages
  import CpcTypes
  import Seqs

  /** One submission: the raw language tag, the submission time in whole
      seconds and the source text. */
  datatype Run = Run(language: string, time: int, source: string)

  /** What one counter returns: its count and the lines that matched. */
  datatype Tally = Tally(count: nat, lines: set<string>)

  /** One warning; the text Python prints for each is given beside it. */
  datatype Warning =
    | LanguageSwitch(minutes: int)          // Used different languages within {minutes} minutes
    | Comments(comments: nat)               // Code has {comments} comments
    | Accents(accents: nat)                 // Code has {accents} accents
    | Exceptions(exceptions: nat)           // Code has {exceptions} exceptions
    | SeveralLanguages(extensions: set<string>)  // Used more than language: {extensions}

  /** What is shown for a flagged contestant: the warnings in the order they
      were raised and the stripped suspicious lines. */
  datatype Report = Report(warnings: seq<Warning>, suspiciousLines: set<string>)

  /** Fifteen minutes, in seconds. */
  const SwitchLimit: int := 15 * 60

  /** More comment lines than this raise a warning. */
  const CommentLimit: nat := 3

  // ---------------------------------------------------------------------
  // the three counters
  // ---------------------------------------------------------------------

  /** The comment markers looked for in a run whose raw tag is `language`. */
  function CommentMarkers(language: string): seq<string> {
    if StartsWith(language, "py") then ["#"] else ["//", "/*"]
  }

  predicate IsCommentLine(line: string, language: string) {
    exists k | 0 <= k < |CommentMarkers(language)| :: Contains(line, CommentMarkers(language)[k])
  }

  /** `_count_comments`: every line holding a marker anywhere counts once. */
  function CountComments(lines: seq<string>, language: string): (r: Tally)
    ensures r.count <= |lines|
    ensures r.lines == set l | l in lines && IsCommentLine(l, language)
    ensures |r.lines| <= r.count
    ensures |lines| == 1 ==> (r.count == 1 <==> IsCommentLine(lines[0], language))
    decreases |lines|
  {
    if |lines| == 0 then Tally(0, {})
    else
      var rest := CountComments(lines[1..], language);
      assert forall l :: l in lines <==> l == lines[0] || l in lines[1..];
      if IsCommentLine(lines[0], language) then Tally(rest.count + 1, rest.lines + {lines[0]})
      else rest
  }

  /** The comment count of a concatenation is the sum of the counts. */
  lemma {:induction false} CommentCountAdds(a: seq<string>, b: seq<string>, language: string)
    ensures CountComments(a + b, language).count
            == CountComments(a, language).count + CountComments(b, language).count
    decreases |a|
  {
    if |a| > 0 {
      assert (a + b)[1..] == a[1..] + b;
      CommentCountAdds(a[1..], b, language);
    } else {
      assert a + b == b;
    }
  }

  /** `c.lower()` on the characters whose lower case matters here: ASCII
      capitals and the capital accented vowels. */
  function Lower(c: char): char {
    if 'A' <= c <= 'Z' then (c as int + 32) as char
    else if c == 'Á' then 'á'
    else if c == 'É' then 'é'
    else if c == 'Í' then 'í'
    else if c == 'Ó' then 'ó'
    else if c == 'Ú' then 'ú'
    else c
  }

  predicate IsAccented(c: char) {
    Lower(c) in "áéíóú"
  }

  /** The number of accented vowels in a line, either case. */
  function AccentsIn(line: string): (n: nat)
    ensures n <= |line|
    decreases |line|
  {
    if |line| == 0 then 0
    else (if IsAccented(line[0]) then 1 else 0) + AccentsIn(line[1..])
  }

  /** A line has a positive accent count exactly when one of its characters
      is an accented vowel. */
  lemma {:induction false} AccentsInPositive(line: string)
    ensures AccentsIn(line) > 0 <==> exists k | 0 <= k < |line| :: IsAccented(line[k])
    decreases |line|
  {
    if |line| > 0 {
      AccentsInPositive(line[1..]);
      assert forall k | 1 <= k < |line| :: line[k] == line[1..][k - 1];
    }
  }

  /** `_count_accents`: every accented character counts, so a line with
      several adds several; each such line is recorded once. */
  function CountAccents(lines: seq<string>): (r: Tally)
    ensures r.lines == set l | l in lines && AccentsIn(l) > 0
    ensures |r.lines| <= r.count
    ensures r.count > 0 <==> r.lines != {}
    ensures |lines| == 1 ==> r.count == AccentsIn(lines[0])
    decreases |lines|
  {
    if |lines| == 0 then Tally(0, {})
    else
      var rest := CountAccents(lines[1..]);
      assert forall l :: l in lines <==> l == lines[0] || l in lines[1..];
      var n := AccentsIn(lines[0]);
      Tally(rest.count + n, if n > 0 then rest.lines + {lines[0]} else rest.lines)
  }

  /** The accent count of a concatenation is the sum of the counts. */
  lemma {:induction false} AccentCountAdds(a: seq<string>, b: seq<string>)
    ensures CountAccents(a + b).count == CountAccents(a).count + CountAccents(b).count
    decreases |a|
  {
    if |a| > 0 {
      assert (a + b)[1..] == a[1..] + b;
      AccentCountAdds(a[1..], b);
    } else {
      assert a + b == b;
    }
  }

  /** Accents are counted per character and in either case: one line with
      two accented vowels gives a count of two. */
  lemma {:induction false} AccentsCountedPerCharacter()
    ensures CountAccents(["Aé", "Éé"]).count == 3
  {
    assert "é"[1..] == "";
    assert AccentsIn("é") == 1;
    assert "Aé"[1..] == "é";
    assert AccentsIn("Aé") == 1;
    assert "Éé"[1..] == "é";
    assert AccentsIn("Éé") == 2;
    assert ["Éé"][1..] == [];
    assert CountAccents(["Éé"]).count == 2;
    assert ["Aé", "Éé"][1..] == ["Éé"];
  }

  predicate IsExceptionLine(line: string) {
    Contains(line, "Exception") || Contains(line, "Error")
  }

  /** `_count_exceptions`: the loop stops at the first line naming an
      exception, so the count is 0 or 1 and the recorded line is that first
      one. */
  function CountExceptions(lines: seq<string>): (r: Tally)
    ensures r.count <= 1
    ensures r.count == |r.lines|
    ensures r.count == 1 <==> exists k | 0 <= k < |lines| :: IsExceptionLine(lines[k])
    ensures r.count == 1 ==> exists k | 0 <= k < |lines| ::
              && r.lines == {lines[k]} && IsExceptionLine(lines[k])
              && forall j | 0 <= j < k :: !IsExceptionLine(lines[j])
    decreases |lines|
  {
    if |lines| == 0 then Tally(0, {})
    else if IsExceptionLine(lines[0]) then Tally(1, {lines[0]})
    else
      var rest := CountExceptions(lines[1..]);
      assert forall k | 1 <= k < |lines| :: lines[k] == lines[1..][k - 1];
      rest
  }

  // ---------------------------------------------------------------------
  // one run
  // ---------------------------------------------------------------------

  /** `source.split("\n")` */
  function SourceLines(run: Run): seq<string> {
    Split(run.source, '\n')
  }

  function CommentCount(run: Run): nat {
    CountComments(SourceLines(run), run.language).count
  }

  function AccentCount(run: Run): nat {
    CountAccents(SourceLines(run)).count
  }

  /** The lines of one run the three counters matched. */
  function RunLines(run: Run): set<string> {
    var lines := SourceLines(run);
    CountComments(lines, run.language).lines + CountAccents(lines).lines + CountExceptions(lines).lines
  }

  /** `math.ceil(seconds / 60)` */
  function CeilMinutes(seconds: int): (m: int)
    ensures (m - 1) * 60 < seconds <= m * 60
  {
    -((-seconds) / 60)
  }

  /** Run `i` follows a run in another language by less than fifteen
      minutes; a negative gap (runs out of time order) also qualifies. */
  predicate SwitchAt(runs: seq<Run>, exts: seq<string>, i: nat)
    requires |exts| == |runs| && i < |runs|
  {
    i > 0 && exts[i] != exts[i - 1] && runs[i].time - runs[i - 1].time < SwitchLimit
  }

  /** The language-switch warning for run `i`, if any. */
  function SwitchWarning(runs: seq<Run>, exts: seq<string>, i: nat): (ws: seq<Warning>)
    requires |exts| == |runs| && i < |runs|
    ensures |ws| <= 1
    ensures |ws| == 1 <==> SwitchAt(runs, exts, i)
    ensures |ws| == 1 ==> ws[0].LanguageSwitch?
    ensures |ws| == 1 ==> ws[0].minutes == CeilMinutes(runs[i].time - runs[i - 1].time)
  {
    if SwitchAt(runs, exts, i) then [LanguageSwitch(CeilMinutes(runs[i].time - runs[i - 1].time))] else []
  }

  /** The comment warning of one run: more than three comment lines. */
  function CommentWarning(run: Run): (ws: seq<Warning>)
    ensures |ws| <= 1
    ensures ws == [] <==> CommentCount(run) <= CommentLimit
    ensures forall w | w in ws :: w == Comments(CommentCount(run))
  {
    if CommentCount(run) > CommentLimit then [Comments(CommentCount(run))] else []
  }

  /** The accent warning of one run: any accented vowel at all. */
  function AccentWarning(run: Run): (ws: seq<Warning>)
    ensures |ws| <= 1
    ensures ws == [] <==> AccentCount(run) == 0
    ensures forall w | w in ws :: w == Accents(AccentCount(run))
  {
    if AccentCount(run) > 0 then [Accents(AccentCount(run))] else []
  }

  /** The exception warning asks for more than one exception line, but the
      counter stops at the first one, so it is never raised. */
  function ExceptionWarning(run: Run): (ws: seq<Warning>)
    ensures ws == []
  {
    var exceptions := CountExceptions(SourceLines(run)).count;
    if exceptions > 1 then [Exceptions(exceptions)] else []
  }

  /** Run `i` raises no warning of its own: it is no quick language
      switch, has at most three comment lines and no accented vowel. */
  predicate QuietRun(runs: seq<Run>, exts: seq<string>, i: nat)
    requires |exts| == |runs| && i < |runs|
  {
    !SwitchAt(runs, exts, i) && CommentCount(runs[i]) <= CommentLimit && AccentCount(runs[i]) == 0
  }

  /** The place of a warning kind in the order one pass raises them. */
  function RaiseOrder(w: Warning): nat {
    match w
    case LanguageSwitch(_) => 0
    case Comments(_) => 1
    case Accents(_) => 2
    case Exceptions(_) => 3
    case SeveralLanguages(_) => 4
  }

  /** The warnings one pass of the loop body appends for run `i`, whose
      extension is `exts[i]`, in the order they are raised: each warning
      that fires is there with its count, at most one of each kind, the
      switch before the comment warning before the accent warning. */
  function RunWarnings(runs: seq<Run>, exts: seq<string>, i: nat): (ws: seq<Warning>)
    requires |exts| == |runs| && i < |runs|
    ensures ws == [] <==> QuietRun(runs, exts, i)
    ensures forall w | w in ws :: w.LanguageSwitch? || w.Comments? || w.Accents?
    ensures forall w | w in ws && w.LanguageSwitch? :: SwitchAt(runs, exts, i) && w.minutes == CeilMinutes(runs[i].time - runs[i - 1].time)
    ensures SwitchAt(runs, exts, i) ==> LanguageSwitch(CeilMinutes(runs[i].time - runs[i - 1].time)) in ws
    ensures Comments(CommentCount(runs[i])) in ws <==> CommentCount(runs[i]) > CommentLimit
    ensures forall w | w in ws && w.Comments? :: w == Comments(CommentCount(runs[i]))
    ensures Accents(AccentCount(runs[i])) in ws <==> AccentCount(runs[i]) > 0
    ensures forall w | w in ws && w.Accents? :: w == Accents(AccentCount(runs[i]))
    ensures forall k, l | 0 <= k < l < |ws| :: RaiseOrder(ws[k]) < RaiseOrder(ws[l])
  {
    var switch, comment, accent := SwitchWarning(runs, exts, i), CommentWarning(runs[i]), AccentWarning(runs[i]);
    var ws := switch + comment + accent + ExceptionWarning(runs[i]);
    JoinedWarnings(switch, comment, accent);
    JoinedInOrder(switch, comment, accent);
    ws
  }

  /** What the three parts of one pass contribute to their concatenation. */
  lemma JoinedWarnings(switch: seq<Warning>, comment: seq<Warning>, accent: seq<Warning>)
    requires |switch| <= 1 && (|switch| == 1 ==> switch[0].LanguageSwitch?)
    requires forall w | w in comment :: w.Comments?
    requires forall w | w in accent :: w.Accents?
    ensures switch + comment + accent + [] == [] <==> switch == [] && comment == [] && accent == []
    ensures forall w | w in switch + comment + accent + [] :: w.LanguageSwitch? || w.Comments? || w.Accents?
    ensures forall w | w in switch + comment + accent + [] && w.LanguageSwitch? :: w == switch[0]
  {
    assert switch + comment + accent + [] == switch + (comment + accent);
  }

  /** Which part of one pass each kind of warning comes from, and the order
      of the parts. */
  lemma {:induction false} JoinedInOrder(switch: seq<Warning>, comment: seq<Warning>, accent: seq<Warning>)
    requires |switch| <= 1 && (|switch| == 1 ==> switch[0].LanguageSwitch?)
    requires |comment| <= 1 && forall w | w in comment :: w.Comments?
    requires |accent| <= 1 && forall w | w in accent :: w.Accents?
    ensures forall w: Warning | w.LanguageSwitch? :: w in switch + comment + accent + [] <==> w in switch
    ensures forall w: Warning | w.Comments? :: w in switch + comment + accent + [] <==> w in comment
    ensures forall w: Warning | w.Accents? :: w in switch + comment + accent + [] <==> w in accent
    ensures var ws := switch + comment + accent + [];
            forall k, l | 0 <= k < l < |ws| :: RaiseOrder(ws[k]) < RaiseOrder(ws[l])
  {
    var ws := switch + comment + accent + [];
    assert ws == switch + comment + accent;
    forall k | 0 <= k < |ws|
      ensures RaiseOrder(ws[k]) == if k < |switch| then 0 else if k < |switch| + |comment| then 1 else 2
    {
      if k < |switch| {
        assert ws[k] == switch[k];
      } else if k < |switch| + |comment| {
        assert ws[k] == comment[k - |switch|];
        assert ws[k] in comment;
      } else {
        assert ws[k] == accent[k - |switch| - |comment|];
        assert ws[k] in accent;
      }
    }
  }

  // ---------------------------------------------------------------------
  // all runs of one contestant
  // ---------------------------------------------------------------------

  /** `omegaup_lang_extension[run.language]` for every run, or the
      `KeyError` of the first run whose tag is not literally a key. */
  function Extensions(runs: seq<Run>): (r: Result<seq<string>>)
    ensures r.Ok? <==> forall i | 0 <= i < |runs| :: Languages.IsKey(runs[i].language)
    ensures r.Ok? ==> |r.value| == |runs|
    ensures r.Ok? ==> forall i | 0 <= i < |runs| :: Languages.Lookup(runs[i].language) == Ok(r.value[i])
    ensures r.Err? ==> exists i | 0 <= i < |runs| ::
              && r.error == KeyError(runs[i].language) && !Languages.IsKey(runs[i].language)
              && forall j | 0 <= j < i :: Languages.IsKey(runs[j].language)
    decreases |runs|
  {
    if |runs| == 0 then Ok([])
    else
      var ext :- Languages.Lookup(runs[0].language);
      var rest := Extensions(runs[1..]);
      if rest.Err? then
        FirstUnknownTagShifts(runs, rest.error);
        Err(rest.error)
      else
        assert forall i | 1 <= i < |runs| :: runs[i] == runs[1..][i - 1];
        Ok([ext] + rest.value)
  }

  /** The first unknown tag after the first run is the first unknown tag of
      all runs when the first run's tag is known. */
  lemma FirstUnknownTagShifts(runs: seq<Run>, e: Failure)
    requires |runs| > 0 && Languages.IsKey(runs[0].language)
    requires exists i | 0 <= i < |runs[1..]| ::
               && e == KeyError(runs[1..][i].language) && !Languages.IsKey(runs[1..][i].language)
               && forall j | 0 <= j < i :: Languages.IsKey(runs[1..][j].language)
    ensures exists i | 0 <= i < |runs| ::
              && e == KeyError(runs[i].language) && !Languages.IsKey(runs[i].language)
              && forall j | 0 <= j < i :: Languages.IsKey(runs[j].language)
  {
    var k :| 0 <= k < |runs[1..]| && e == KeyError(runs[1..][k].language)
             && !Languages.IsKey(runs[1..][k].language)
             && forall j | 0 <= j < k :: Languages.IsKey(runs[1..][j].language);
    assert runs[k + 1] == runs[1..][k];
    assert forall j | 1 <= j < k + 1 :: runs[j] == runs[1..][j - 1];
  }

  /** The warnings of every run, run by run. */
  function PerRunWarnings(runs: seq<Run>, exts: seq<string>): (wss: seq<seq<Warning>>)
    requires |exts| == |runs|
    ensures |wss| == |runs|
    ensures forall i | 0 <= i < |runs| :: wss[i] == RunWarnings(runs, exts, i)
  {
    seq(|runs|, i requires 0 <= i < |runs| => RunWarnings(runs, exts, i))
  }

  /** The stripped lines any counter matched in any run. */
  function SuspiciousLines(runs: seq<Run>): set<string> {
    set i, l | 0 <= i < |runs| && l in RunLines(runs[i]) :: Strip(l)
  }

  /** The set of extensions used. */
  function LanguagesUsed(exts: seq<string>): set<string> {
    set e | e in exts
  }

  /** Every warning raised for the runs, in order: the per-run warnings,
      then the several-languages warning. */
  function Warnings(runs: seq<Run>, exts: seq<string>): seq<Warning>
    requires |exts| == |runs|
  {
    var languages := LanguagesUsed(exts);
    Seqs.Concat(PerRunWarnings(runs, exts))
    + (if |languages| > 1 then [SeveralLanguages(languages)] else [])
  }

  /** `_check_suspicious_activity` for one contestant: a `KeyError` when a
      run's tag is not literally a key of the table, no report when no
      warning was raised, and otherwise the warnings with the stripped
      suspicious lines. */
  function CheckSuspiciousActivity(runs: seq<Run>): (r: Result<Option<Report>>)
    ensures r.Err? <==> exists i | 0 <= i < |runs| :: !Languages.IsKey(runs[i].language)
    ensures r.Err? ==> exists i | 0 <= i < |runs| ::
              && r.error == KeyError(runs[i].language) && !Languages.IsKey(runs[i].language)
              && forall j | 0 <= j < i :: Languages.IsKey(runs[j].language)
    ensures r.Ok? && r.value.Some? ==> r.value.value.warnings != []
  {
    var exts :- Extensions(runs);
    var warnings := Warnings(runs, exts);
    if |warnings| > 0 then Ok(Some(Report(warnings, SuspiciousLines(runs)))) else Ok(None)
  }

  /** The header line names the contestant as `name (username)` when the
      scoreboard knows the username, and by the username otherwise. Unlike
      the page, the header labels a known username even when its name is
      empty: the label is then ` (username)`. */
  function ReportedName(username: string, nameByUsername: map<string, string>): (r: string)
    ensures username !in nameByUsername ==> r == username
    ensures username in nameByUsername ==> r == CpcTypes.NameWithUsername(nameByUsername[username], username)
    ensures r == username <==> username !in nameByUsername
    ensures username in nameByUsername && nameByUsername[username] == "" ==> r == " (" + username + ")"
  {
    if username in nameByUsername then
      CpcTypes.LabelNamesOneUser(nameByUsername[username], username, username);
      CpcTypes.NameWithUsername(nameByUsername[username], username)
    else username
  }

  // ---------------------------------------------------------------------
  // properties of the whole check
  // ---------------------------------------------------------------------

  /** The result of the check once every tag is known: the per-run
      warnings in run order, then the several-languages warning. */
  lemma {:induction false} ReportShape(runs: seq<Run>)
    requires Extensions(runs).Ok?
    ensures var warnings := Warnings(runs, Extensions(runs).value);
            CheckSuspiciousActivity(runs)
            == if |warnings| > 0 then Ok(Some(Report(warnings, SuspiciousLines(runs)))) else Ok(None)
  {
  }

  /** A warning among the per-run warnings was raised by one of the runs,
      and every warning a run raises is among them. */
  lemma {:induction false} WarningFromRun(runs: seq<Run>, exts: seq<string>, w: Warning)
    requires |exts| == |runs|
    ensures w in Seqs.Concat(PerRunWarnings(runs, exts))
            <==> exists i | 0 <= i < |runs| :: w in RunWarnings(runs, exts, i)
  {
    var wss := PerRunWarnings(runs, exts);
    Seqs.InConcat(wss, w);
    if exists i | 0 <= i < |wss| :: w in wss[i] {
      var i :| 0 <= i < |wss| && w in wss[i];
      assert w in RunWarnings(runs, exts, i);
    }
  }

  /** Run `i`'s warnings, `wss[i] == RunWarnings(runs, exts, i)`, stand
      whole and in order as the block of `ws` that follows the warnings of
      the earlier runs; `Offset(wss, i)` is the number of warnings runs `0`
      to `i - 1` raise. */
  predicate BlockOfRun(ws: seq<Warning>, runs: seq<Run>, exts: seq<string>, i: nat)
    requires |exts| == |runs| && i < |runs|
  {
    var wss := PerRunWarnings(runs, exts);
    var start, end := Seqs.Offset(wss, i), Seqs.Offset(wss, i + 1);
    && start <= end <= |ws|
    && ws[start..end] == wss[i]
  }

  /** Warnings are kept as they are raised, neither merged nor reordered:
      there are as many as the runs raise, plus the several-languages
      warning; each run's warnings form one block, after those of every
      earlier run. */
  lemma WarningsInRaisedOrder(runs: seq<Run>, exts: seq<string>)
    requires |exts| == |runs|
    ensures var ws := Warnings(runs, exts);
            && |ws| == Seqs.Offset(PerRunWarnings(runs, exts), |runs|) + (if |LanguagesUsed(exts)| > 1 then 1 else 0)
            && forall i | 0 <= i < |runs| :: BlockOfRun(ws, runs, exts, i)
  {
    var wss := PerRunWarnings(runs, exts);
    var used := LanguagesUsed(exts);
    var prefix := Seqs.Concat(wss);
    var ws := Warnings(runs, exts);
    assert ws == prefix + (if |used| > 1 then [SeveralLanguages(used)] else []);
    assert ws[..|prefix|] == prefix;
    Seqs.ConcatLength(wss);
    forall i | 0 <= i < |runs| ensures BlockOfRun(ws, runs, exts, i) {
      Seqs.BlockOfPrefix(wss, ws, i);
      assert wss[i] == RunWarnings(runs, exts, i);
    }
  }

  /** The exception warning can never be raised. */
  lemma {:induction false} NoExceptionWarning(runs: seq<Run>)
    requires CheckSuspiciousActivity(runs).Ok? && CheckSuspiciousActivity(runs).value.Some?
    ensures forall w | w in CheckSuspiciousActivity(runs).value.value.warnings :: !w.Exceptions?
  {
    ReportShape(runs);
    NoExceptionAmong(runs, Extensions(runs).value);
  }

  /** `NoExceptionWarning` for any extensions of the runs. */
  lemma NoExceptionAmong(runs: seq<Run>, exts: seq<string>)
    requires |exts| == |runs|
    ensures forall w | w in Warnings(runs, exts) :: !w.Exceptions?
  {
    var wss := PerRunWarnings(runs, exts);
    var used := LanguagesUsed(exts);
    forall i | 0 <= i < |wss| ensures forall w: Warning | w in wss[i] :: !w.Exceptions? {
      assert wss[i] == RunWarnings(runs, exts, i);
    }
    NoExceptionInConcat(wss);
    assert Warnings(runs, exts) == Seqs.Concat(wss) + (if |used| > 1 then [SeveralLanguages(used)] else []);
  }

  /** Concatenating warning lists without an exception warning adds none. */
  lemma NoExceptionInConcat(wss: seq<seq<Warning>>)
    requires forall i | 0 <= i < |wss| :: forall w: Warning | w in wss[i] :: !w.Exceptions?
    ensures forall w | w in Seqs.Concat(wss) :: !w.Exceptions?
  {
    forall w | w in Seqs.Concat(wss) ensures !w.Exceptions? {
      Seqs.InConcat(wss, w);
    }
  }

  /** The several-languages warning is raised once, after every per-run
      warning, exactly when the runs use more than one extension. */
  lemma {:induction false} SeveralLanguagesWarnedLast(runs: seq<Run>)
    requires CheckSuspiciousActivity(runs).Ok? && CheckSuspiciousActivity(runs).value.Some?
    ensures var ws := CheckSuspiciousActivity(runs).value.value.warnings;
            var used := LanguagesUsed(Extensions(runs).value);
            && (forall k | 0 <= k < |ws| - 1 :: !ws[k].SeveralLanguages?)
            && (ws[|ws| - 1].SeveralLanguages? <==> |used| > 1)
            && (ws[|ws| - 1].SeveralLanguages? ==> ws[|ws| - 1].extensions == used)
  {
    ReportShape(runs);
    SeveralLanguagesLast(runs, Extensions(runs).value);
  }

  /** `SeveralLanguagesWarnedLast` for any extensions of the runs. */
  lemma {:induction false} SeveralLanguagesLast(runs: seq<Run>, exts: seq<string>)
    requires |exts| == |runs| && Warnings(runs, exts) != []
    ensures var ws := Warnings(runs, exts);
            var used := LanguagesUsed(exts);
            && (forall k | 0 <= k < |ws| - 1 :: !ws[k].SeveralLanguages?)
            && (ws[|ws| - 1].SeveralLanguages? <==> |used| > 1)
            && (ws[|ws| - 1].SeveralLanguages? ==> ws[|ws| - 1].extensions == used)
  {
    var used := LanguagesUsed(exts);
    var prefix := Seqs.Concat(PerRunWarnings(runs, exts));
    var tail := if |used| > 1 then [SeveralLanguages(used)] else [];
    var ws := prefix + tail;
    assert Warnings(runs, exts) == ws;
    PerRunNotSeveral(runs, exts);
    forall k | 0 <= k < |ws| - 1 ensures !ws[k].SeveralLanguages? {
      assert ws[k] == prefix[k];
    }
    if tail == [] {
      assert ws[|ws| - 1] == prefix[|prefix| - 1];
    }
  }

  /** No per-run warning is the several-languages warning. */
  lemma {:induction false} PerRunNotSeveral(runs: seq<Run>, exts: seq<string>)
    requires |exts| == |runs|
    ensures forall k | 0 <= k < |Seqs.Concat(PerRunWarnings(runs, exts))| ::
              !Seqs.Concat(PerRunWarnings(runs, exts))[k].SeveralLanguages?
  {
    var prefix := Seqs.Concat(PerRunWarnings(runs, exts));
    forall k | 0 <= k < |prefix| ensures !prefix[k].SeveralLanguages? {
      WarningFromRun(runs, exts, prefix[k]);
    }
  }

  /** A language-switch warning with the gap rounded up to whole minutes is
      raised for every run that follows a run in another language by less
      than fifteen minutes, and for no other run. */
  lemma {:induction false} SwitchWarnings(runs: seq<Run>)
    requires CheckSuspiciousActivity(runs).Ok? && CheckSuspiciousActivity(runs).value.Some?
    ensures var exts := Extensions(runs).value;
            var ws := CheckSuspiciousActivity(runs).value.value.warnings;
            && (forall i | 0 <= i < |runs| && SwitchAt(runs, exts, i) ::
                  LanguageSwitch(CeilMinutes(runs[i].time - runs[i - 1].time)) in ws)
            && (forall w | w in ws && w.LanguageSwitch? ::
                  exists i | 0 <= i < |runs| :: SwitchAt(runs, exts, i) && w.minutes == CeilMinutes(runs[i].time - runs[i - 1].time))
  {
    var exts := Extensions(runs).value;
    ReportShape(runs);
    var ws := Warnings(runs, exts);
    var prefix := Seqs.Concat(PerRunWarnings(runs, exts));
    assert ws[..|prefix|] == prefix;
    forall i | 0 <= i < |runs| && SwitchAt(runs, exts, i)
      ensures LanguageSwitch(CeilMinutes(runs[i].time - runs[i - 1].time)) in ws
    {
      var w := LanguageSwitch(CeilMinutes(runs[i].time - runs[i - 1].time));
      assert SwitchWarning(runs, exts, i) == [w];
      assert w in RunWarnings(runs, exts, i);
      WarningFromRun(runs, exts, w);
    }
    forall w | w in ws && w.LanguageSwitch?
      ensures exists i | 0 <= i < |runs| :: SwitchAt(runs, exts, i) && w.minutes == CeilMinutes(runs[i].time - runs[i - 1].time)
    {
      assert w in prefix;
      WarningFromRun(runs, exts, w);
    }
  }

  /** A warning a run raises is among all the warnings, and a warning among
      them that is not the several-languages warning was raised by a run. */
  lemma {:induction false} RunWarningAmong(runs: seq<Run>, exts: seq<string>, w: Warning)
    requires |exts| == |runs|
    ensures (exists i | 0 <= i < |runs| :: w in RunWarnings(runs, exts, i)) ==> w in Warnings(runs, exts)
    ensures w in Warnings(runs, exts) && !w.SeveralLanguages? ==> exists i | 0 <= i < |runs| :: w in RunWarnings(runs, exts, i)
  {
    var used := LanguagesUsed(exts);
    var prefix := Seqs.Concat(PerRunWarnings(runs, exts));
    assert Warnings(runs, exts) == prefix + (if |used| > 1 then [SeveralLanguages(used)] else []);
    WarningFromRun(runs, exts, w);
  }

  /** `ws` holds the comment warning, with its count, of every run with
      more than three comment lines, and no other comment warning. */
  predicate CommentsWarned(runs: seq<Run>, ws: seq<Warning>) {
    && (forall i | 0 <= i < |runs| && CommentCount(runs[i]) > CommentLimit :: Comments(CommentCount(runs[i])) in ws)
    && (forall w | w in ws && w.Comments? ::
          exists i | 0 <= i < |runs| :: CommentCount(runs[i]) > CommentLimit && w == Comments(CommentCount(runs[i])))
  }

  /** `ws` holds the accent warning, with its count, of every run with an
      accented vowel, and no other accent warning. */
  predicate AccentsWarned(runs: seq<Run>, ws: seq<Warning>) {
    && (forall i | 0 <= i < |runs| && AccentCount(runs[i]) > 0 :: Accents(AccentCount(runs[i])) in ws)
    && (forall w | w in ws && w.Accents? ::
          exists i | 0 <= i < |runs| :: AccentCount(runs[i]) > 0 && w == Accents(AccentCount(runs[i])))
  }

  /** `CommentsWarned` for any extensions of the runs. */
  lemma CommentsAmong(runs: seq<Run>, exts: seq<string>)
    requires |exts| == |runs|
    ensures CommentsWarned(runs, Warnings(runs, exts))
  {
    forall i | 0 <= i < |runs| && CommentCount(runs[i]) > CommentLimit
      ensures Comments(CommentCount(runs[i])) in Warnings(runs, exts)
    {
      CommentOfRunAmong(runs, exts, i);
    }
    forall w | w in Warnings(runs, exts) && w.Comments?
      ensures exists i | 0 <= i < |runs| :: CommentCount(runs[i]) > CommentLimit && w == Comments(CommentCount(runs[i]))
    {
      CommentAmongOfRun(runs, exts, w);
    }
  }

  /** The comment warning run `i` raises is among all the warnings. */
  lemma CommentOfRunAmong(runs: seq<Run>, exts: seq<string>, i: nat)
    requires |exts| == |runs| && i < |runs| && CommentCount(runs[i]) > CommentLimit
    ensures Comments(CommentCount(runs[i])) in Warnings(runs, exts)
  {
    var w := Comments(CommentCount(runs[i]));
    assert w in RunWarnings(runs, exts, i);
    RunWarningAmong(runs, exts, w);
  }

  /** A comment warning among all the warnings is one a run raises. */
  lemma CommentAmongOfRun(runs: seq<Run>, exts: seq<string>, w: Warning)
    requires |exts| == |runs| && w in Warnings(runs, exts) && w.Comments?
    ensures exists i | 0 <= i < |runs| :: CommentCount(runs[i]) > CommentLimit && w == Comments(CommentCount(runs[i]))
  {
    RunWarningAmong(runs, exts, w);
    var i :| 0 <= i < |runs| && w in RunWarnings(runs, exts, i);
    assert w == Comments(CommentCount(runs[i]));
  }

  /** `AccentsWarned` for any extensions of the runs. */
  lemma AccentsAmong(runs: seq<Run>, exts: seq<string>)
    requires |exts| == |runs|
    ensures AccentsWarned(runs, Warnings(runs, exts))
  {
    forall i | 0 <= i < |runs| && AccentCount(runs[i]) > 0
      ensures Accents(AccentCount(runs[i])) in Warnings(runs, exts)
    {
      AccentOfRunAmong(runs, exts, i);
    }
    forall w | w in Warnings(runs, exts) && w.Accents?
      ensures exists i | 0 <= i < |runs| :: AccentCount(runs[i]) > 0 && w == Accents(AccentCount(runs[i]))
    {
      AccentAmongOfRun(runs, exts, w);
    }
  }

  /** The accent warning run `i` raises is among all the warnings. */
  lemma AccentOfRunAmong(runs: seq<Run>, exts: seq<string>, i: nat)
    requires |exts| == |runs| && i < |runs| && AccentCount(runs[i]) > 0
    ensures Accents(AccentCount(runs[i])) in Warnings(runs, exts)
  {
    var w := Accents(AccentCount(runs[i]));
    assert w in RunWarnings(runs, exts, i);
    RunWarningAmong(runs, exts, w);
  }

  /** A accent warning among all the warnings is one a run raises. */
  lemma AccentAmongOfRun(runs: seq<Run>, exts: seq<string>, w: Warning)
    requires |exts| == |runs| && w in Warnings(runs, exts) && w.Accents?
    ensures exists i | 0 <= i < |runs| :: AccentCount(runs[i]) > 0 && w == Accents(AccentCount(runs[i]))
  {
    RunWarningAmong(runs, exts, w);
    var i :| 0 <= i < |runs| && w in RunWarnings(runs, exts, i);
    assert w == Accents(AccentCount(runs[i]));
  }

  /** A run with more than three comment lines makes the check produce a
      report, and a report holds the comment warning, with its count, of
      every such run and of no other. */
  lemma {:induction false} CommentWarnings(runs: seq<Run>)
    requires Extensions(runs).Ok?
    ensures (exists i | 0 <= i < |runs| :: CommentCount(runs[i]) > CommentLimit) ==>
              CheckSuspiciousActivity(runs).Ok? && CheckSuspiciousActivity(runs).value.Some?
    ensures CheckSuspiciousActivity(runs).Ok? && CheckSuspiciousActivity(runs).value.Some? ==>
              CommentsWarned(runs, CheckSuspiciousActivity(runs).value.value.warnings)
  {
    var exts := Extensions(runs).value;
    ReportShape(runs);
    CommentsAmong(runs, exts);
  }

  /** A run with an accented vowel makes the check produce a report, and a
      report holds the accent warning, with its count, of every such run
      and of no other. */
  lemma {:induction false} AccentWarnings(runs: seq<Run>)
    requires Extensions(runs).Ok?
    ensures (exists i | 0 <= i < |runs| :: AccentCount(runs[i]) > 0) ==>
              CheckSuspiciousActivity(runs).Ok? && CheckSuspiciousActivity(runs).value.Some?
    ensures CheckSuspiciousActivity(runs).Ok? && CheckSuspiciousActivity(runs).value.Some? ==>
              AccentsWarned(runs, CheckSuspiciousActivity(runs).value.value.warnings)
  {
    var exts := Extensions(runs).value;
    ReportShape(runs);
    AccentsAmong(runs, exts);
  }

  /** No report is produced exactly when every tag is a key, no run follows
      a run in another language within fifteen minutes, no run has more
      than three comment lines or any accented vowel, and a single
      extension is used. */
  lemma {:induction false} QuietExactlyWithoutSignals(runs: seq<Run>)
    requires Extensions(runs).Ok?
    ensures var exts := Extensions(runs).value;
            CheckSuspiciousActivity(runs) == Ok(None)
            <==> (forall i | 0 <= i < |runs| :: QuietRun(runs, exts, i)) && |LanguagesUsed(exts)| <= 1
  {
    var exts := Extensions(runs).value;
    var wss := PerRunWarnings(runs, exts);
    ReportShape(runs);
    Seqs.ConcatEmpty(wss);
    forall i | 0 <= i < |runs| ensures wss[i] == [] <==> QuietRun(runs, exts, i) {
      assert wss[i] == RunWarnings(runs, exts, i);
    }
  }

  /** A line of a run that holds a comment marker or an accented vowel, or
      that is the run's first line naming an exception, is reported
      stripped. */
  lemma {:induction false} MatchedLinesReported(runs: seq<Run>, i: nat, k: nat)
    requires CheckSuspiciousActivity(runs).Ok? && CheckSuspiciousActivity(runs).value.Some?
    requires i < |runs| && k < |SourceLines(runs[i])|
    requires var lines := SourceLines(runs[i]);
             || IsCommentLine(lines[k], runs[i].language)
             || AccentsIn(lines[k]) > 0
             || (IsExceptionLine(lines[k]) && forall j | 0 <= j < k :: !IsExceptionLine(lines[j]))
    ensures Strip(SourceLines(runs[i])[k]) in CheckSuspiciousActivity(runs).value.value.suspiciousLines
  {
    MatchedLineRecorded(runs[i], k);
    assert Strip(SourceLines(runs[i])[k]) in SuspiciousLines(runs);
    ReportShape(runs);
  }

  /** A source line with a comment marker or an accented vowel, or the
      first line naming an exception, is recorded by one of the counters. */
  lemma MatchedLineRecorded(run: Run, k: nat)
    requires k < |SourceLines(run)|
    requires var lines := SourceLines(run);
             || IsCommentLine(lines[k], run.language)
             || AccentsIn(lines[k]) > 0
             || (IsExceptionLine(lines[k]) && forall j | 0 <= j < k :: !IsExceptionLine(lines[j]))
    ensures SourceLines(run)[k] in RunLines(run)
  {
    var lines := SourceLines(run);
    var l := lines[k];
    if !IsCommentLine(l, run.language) && AccentsIn(l) == 0 {
      var e := CountExceptions(lines);
      var m :| 0 <= m < |lines| && e.lines == {lines[m]} && IsExceptionLine(lines[m])
               && forall j | 0 <= j < m :: !IsExceptionLine(lines[j]);
      assert m == k;
    }
  }

  /** A line any of the three counters looks for. */
  predicate MatchedLine(run: Run, line: string) {
    IsCommentLine(line, run.language) || AccentsIn(line) > 0 || IsExceptionLine(line)
  }

  /** A line a counter recorded for one run is one of its source lines the
      counter looks for. */
  lemma {:induction false} RunLineMatched(run: Run, raw: string)
    requires raw in RunLines(run)
    ensures exists k | 0 <= k < |SourceLines(run)| :: SourceLines(run)[k] == raw && MatchedLine(run, raw)
  {
    var lines := SourceLines(run);
    var e := CountExceptions(lines);
    if raw in e.lines {
      var m :| 0 <= m < |lines| && e.lines == {lines[m]} && IsExceptionLine(lines[m]);
      assert lines[m] == raw;
    } else {
      assert raw in lines;
      var k :| 0 <= k < |lines| && lines[k] == raw;
    }
  }

  /** Every reported line is a stripped source line of some run that holds
      a comment marker, an accented vowel or an exception name. */
  lemma {:induction false} ReportedLinesMatched(runs: seq<Run>, l: string)
    requires CheckSuspiciousActivity(runs).Ok? && CheckSuspiciousActivity(runs).value.Some?
    requires l in CheckSuspiciousActivity(runs).value.value.suspiciousLines
    ensures exists i, k | 0 <= i < |runs| && 0 <= k < |SourceLines(runs[i])| ::
              l == Strip(SourceLines(runs[i])[k]) && MatchedLine(runs[i], SourceLines(runs[i])[k])
  {
    ReportShape(runs);
    assert l in SuspiciousLines(runs);
    var i, raw :| 0 <= i < |runs| && raw in RunLines(runs[i]) && l == Strip(raw);
    RunLineMatched(runs[i], raw);
    var k :| 0 <= k < |SourceLines(runs[i])| && SourceLines(runs[i])[k] == raw && MatchedLine(runs[i], raw);
  }
}
