# omegaUp-CPC contest checker — a Dafny model of its core

omegaUp-CPC helps the organisers of an omegaUp programming contest look for cheating. It downloads every run of every contestant and flags suspicious runs with a few heuristics:

- comment lines;
- accented vowels;
- exception names;
- quick switches between programming languages;
- use of several languages.

It also sends the saved sources to the Moss plagiarism service. From Moss's report it then:

- drops the matches between two runs of the same contestant;
- reads the remaining matches into `Plagiarism` records;
- keeps the records above a similarity threshold;
- ranks them from the most similar down.

A second copy of the parsing code builds the data for a results web page.

This project models those pure parts as immutable Dafny datatypes and functions:

| module | file | what it models |
|---|---|---|
| `Outcomes` | outcomes.dfy | `Option`, and `Result` whose `Err` is the Python exception that would be raised (`KeyError`, `ValueError`, `IndexError`, `SystemExit`) |
| `Strings` | strings.dfy | `str.split`, `"sep".join`, `str.index`, `str.strip`, `str.replace(c, "")`, `int()` on digit strings, `str(n)`, and `sorted` on a set of strings |
| `Seqs` | seqs.dfy | subsequences, concatenation, and a stable descending sort by an integer key (`sorted(xs, key=lambda x: -k(x))`) |
| `CpcTypes` | cpc_types.dfy | the frozen records `SuspiciousActivity`, `MossHtml` and `Plagiarism` |
| `Languages` | languages.dfy | the language-tag table: the exact lookup of the suspicious-activity check, and the last-prefix-match resolution used when sources are saved |
| `Heuristics` | heuristics.dfy | the three counters and `_check_suspicious_activity` for one contestant, returning the warnings instead of printing them |
| `Selection` | selection.dfy | the contest and problem menus and the checks on the number typed |
| `MossReport` | moss_report.dfy | `_remove_same_user_matches`, user, field and percentage extraction, anchor pairing, and the threshold-and-rank tail of `check_plagiarism` |
| `Template` | template.dfy | `status_as_int`, `get_results_information`, `get_information_from_html` and the section list of `generate_website` |
| `Util` | util.dfy | `get_school_name` and the layout of `print_table` |

How the Python is represented:

- A saved Moss page is represented by its `<a>` elements, in document order. Each is an `Anchor(href, text, mentionsResults)`, where `mentionsResults` stands for `"results" in str(tag)`.
- Run times are whole seconds.
- Reading the number a user types is a parameter `typed: int`.
- Printing is replaced by the value that would be printed.

## Model

| member | source | states |
|---|---|---|
| CpcTypes.SuspiciousActivity.DisplayName | cpc_types.py:13-15 | the result is always the name or the username; it is the name exactly when a non-empty name is present, and the username when the name is missing or empty |
| Heuristics.CountComments | main.py:197-207 | the matched lines are exactly the lines holding one of the language's markers (`#` for tags starting with `py`, else `//` or `/*`); each line counts at most once, so the count is at most the number of lines and at least the number of distinct matched lines |
| Heuristics.CommentCountAdds | main.py:201-206 | the comment count of two blocks of lines is the sum of their counts, so every line is counted on its own |
| Heuristics.AccentsInPositive | main.py:214-217 | a line adds to the accent count exactly when one of its characters lower-cases to á, é, í, ó or ú |
| Heuristics.CountAccents | main.py:210-218 | the matched lines are exactly the lines with an accented vowel; the count is positive exactly when some line matched, and is at least the number of matched lines |
| Heuristics.AccentCountAdds | main.py:213-217 | the accent count of two blocks of lines is the sum of their counts |
| Heuristics.AccentsCountedPerCharacter | main.py:214-216 | accents are counted per character and in either case: the lines `Aé`, `Éé` give 3 |
| Heuristics.CountExceptions | main.py:221-229 | the count is 0 or 1 and equals the number of recorded lines; it is 1 exactly when some line names `Exception` or `Error`, and the recorded line is the first such line |
| Heuristics.CeilMinutes | main.py:253 | the result is the least whole number of minutes covering the gap, negative gaps included |
| Heuristics.SwitchWarning | main.py:248-253 | run i raises a language-switch warning exactly when i > 0, its extension differs from run i-1's and the gap is under 900 seconds, negative gaps included; the warning carries the gap rounded up to minutes |
| Heuristics.CommentWarning | main.py:255-258 | a run raises the comment warning, at most once and with its count, exactly when it has more than three comment lines |
| Heuristics.AccentWarning | main.py:260-263 | a run raises the accent warning, at most once and with its count, exactly when it has an accented vowel |
| Heuristics.ExceptionWarning | main.py:265-268 | the exception warning is never raised, because the counter never exceeds 1 |
| Heuristics.RunWarnings | main.py:243-270 | a run raises no warning exactly when it is quiet: no quick switch, at most three comment lines and no accented vowel; every warning it raises is a switch, comment or accent warning; the switch warning is there with the run's rounded-up gap exactly when the run switches, the comment warning with the run's comment count exactly when it exceeds three, the accent warning with the run's accent count exactly when it is positive; each kind at most once, in the order switch, comment, accent |
| Heuristics.Extensions | main.py:244-249 | the exact table lookup succeeds for every run exactly when every tag is a table key; otherwise it is the `KeyError` of the first run whose tag is not a key |
| Heuristics.CheckSuspiciousActivity | main.py:238-287 | the check fails exactly when some run's tag is not literally a table key, with the `KeyError` of the first such run; a report is produced only with at least one warning |
| Heuristics.ReportedName | main.py:277-280 | the header names the contestant by the bare username exactly when the scoreboard does not have the username; a known username is labelled even when its name is empty, as ` (username)` |
| Heuristics.NoExceptionWarning | main.py:265-268 | no report ever holds an exception warning |
| Heuristics.SeveralLanguagesWarnedLast | main.py:272-273 | the several-languages warning can only be the last warning; it is there exactly when more than one extension was used, and it carries the set of extensions |
| Heuristics.WarningsInRaisedOrder | main.py:243-273 | the warnings are those the runs raise, run by run, plus one several-languages warning when more than one extension was used, and nothing else; each run's warnings form one contiguous block, in the order the run raises them, after the blocks of all earlier runs, so nothing is deduplicated or reordered |
| Heuristics.CommentWarnings | main.py:255-258 | a run with more than three comment lines makes the check produce a report; a report holds the comment warning, with its count, of every such run, and no comment warning of any other count |
| Heuristics.AccentWarnings | main.py:260-263 | a run with an accented vowel makes the check produce a report; a report holds the accent warning, with its count, of every such run, and no accent warning of any other count |
| Heuristics.SwitchWarnings | main.py:248-253 | the report holds a switch warning for every run that follows a run in another language by less than fifteen minutes, and every switch warning comes from such a run with its rounded-up gap |
| Heuristics.QuietExactlyWithoutSignals | main.py:272-276 | when every tag is known, no report is produced exactly when every run is quiet and at most one extension is used |
| Heuristics.MatchedLinesReported | main.py:255-275 | in a report, every source line with a comment marker or an accented vowel, and every run's first line naming an exception, appears stripped among the suspicious lines |
| Heuristics.ReportedLinesMatched | main.py:255-275 | every suspicious line of a report is a stripped source line of some run that one of the three counters looks for |
| Strings.Strip | main.py:275 | the result is a slice of the input with only whitespace cut off both ends, and it neither starts nor ends with whitespace |
| Strings.SortedDistinct | main.py:285 | the suspicious lines come out strictly increasing, with exactly the elements of the set |
| Strings.StrictlySortedUnique | main.py:285 | a set has exactly one strictly increasing listing, so the sorted output is determined by the set |
| Languages.Lookup | main.py:246 | the exact lookup succeeds exactly when the tag is a key and then returns that key's extension; otherwise it raises `KeyError` on the tag |
| Languages.KeysArePrefixFree | main.py:15-30 | no key of the language table is a prefix of another key |
| Languages.AtMostOneKeyPrefixes | main.py:15-30 | at most one table key is a prefix of any tag |
| Languages.ResolveUpTo | main.py:96-98 | after visiting the first n rows, the loop holds the extension of a visited row whose key starts the tag, and holds nothing exactly when no visited key starts the tag |
| Languages.ResolveExtension | main.py:94-101 | a tag resolves to the extension of the key it starts with, or to `.txt` when no key matches, so the result is always a table value or `.txt` |
| Languages.KeysResolveToTheirExtension | main.py:94-101 | where the exact lookup succeeds, the prefix resolution gives the same extension |
| Languages.ExtendedTagsOnlyResolve | main.py:94-101 | a tag that properly extends a key (such as `py3.10`) is saved with that key's extension, yet the exact lookup of the check raises `KeyError` on it |
| Selection.ChooseContest | main.py:54-58 | a contest number is accepted exactly when it lies in [0, n); anything else exits with status 1 |
| Selection.ContestChoiceFollowsMenu | main.py:46-58 | a number is accepted exactly when it is printed on a menu row, and the chosen alias is the one printed on that row |
| Selection.ChooseProblems | main.py:73-80 | a problem number is accepted exactly when it lies in [0, n]; anything else exits with status 1; a positive number chooses a single problem |
| Selection.ProblemChoiceFollowsMenu | main.py:62-80 | a number is accepted exactly when it is printed on a menu row; row 0 chooses every problem in contest order, and any other row the problem printed on it |
| MossReport.UserFromHtmlLine | plagiarism.py:92-96 | the user holds no `/`; a line without the alias is an error |
| MossReport.UserFollowsAlias | plagiarism.py:92-96 | a user that is read starts one character after the first occurrence of the alias and is followed by a `/` |
| MossReport.UserFromRowLine | plagiarism.py:92-96 | in a line `before + alias + c + user + "/" + after`, where the alias does not occur earlier and the user holds no `/`, the extracted user is exactly `user` |
| MossReport.Scan | plagiarism.py:75-88 | the scan's segments are the match rows exactly where the visited line starts with `<TR><TD>` |
| MossReport.ScanEnd | plagiarism.py:75 | the scan stops at most two lines before the end, and never past it |
| MossReport.ScanCovers | plagiarism.py:74-88 | the segments' lines are the input lines from the start up to where the scan stops, in order |
| MossReport.ScanEndsWithRow | plagiarism.py:75-88 | when the scan stops within the last two lines, its last segment is a match row |
| MossReport.FilterReport | plagiarism.py:69-88 | a report of fewer than three lines filters to nothing |
| MossReport.RemoveSameUserMatches | plagiarism.py:69-88 | the while loop over the lines always terminates, and what it writes, or the error it raises, is that of the segment-wise filter |
| MossReport.KeepAllSurvivors | plagiarism.py:78-88 | the segment filter fails exactly when a match row's user cannot be read, and otherwise writes exactly the lines of the surviving segments |
| MossReport.FilterKeepsRowsOfDifferentUsers | plagiarism.py:75-88 | the filter fails exactly when a visited match row has an unreadable user; otherwise it writes every other visited line, and exactly the match rows whose two users differ, each with its two following lines |
| MossReport.FilterIsSubsequence | plagiarism.py:69-88 | the filtered report is an order-preserving subsequence of the input, never longer |
| MossReport.PlainReportCopied | plagiarism.py:75-88 | a report with no match row is copied except for its last two lines |
| MossReport.ResultsInformation | plagiarism.py:145-149 | a read problem and user hold no `/`, and a read file name and status hold no space |
| MossReport.ResultsInformationRoundTrip | plagiarism.py:145-149 | the anchor text `root/problem/user/file status` reads back as exactly (problem, user, file, status) |
| MossReport.ResultsInformationShape | plagiarism.py:145-149 | a text reads without error exactly when it has the form `root/problem/user/file status` with fields free of separators |
| MossReport.SimilarityPerc | plagiarism.py:99-100 | a status that parses is made only of digits and the characters `(`, `)` and `%` |
| MossReport.SimilarityPercRoundTrip | plagiarism.py:99-100 | the status `(n%)` parses back to n, for every n ≥ 0 |
| MossReport.PairUp | plagiarism.py:110-114 | an odd number of anchors is an error; a page yields at most one record per two anchors |
| MossReport.MatchPairsAligned | plagiarism.py:110-114 | a pair is a match pair exactly when it is the anchors at an even position and the next one, and both mention results |
| MossReport.PairUpFollowsMatchPairs | plagiarism.py:110-140 | pairing succeeds exactly when the anchor count is even and every match pair builds a record; the records are then those of the match pairs, one each, in page order |
| MossReport.RecordOf | plagiarism.py:115-140 | a record is built exactly when both anchor texts can be read and the first one's status is a percentage; it carries the first anchor's link, problem, status and that percentage, the report's language, both users and both file names in anchor order, and each user's scoreboard name, or the username when there is none |
| MossReport.RecordOfMatch | plagiarism.py:115-140 | two well-formed anchors with status `(n%)` give the record of each anchor's user and file, the scoreboard names (username as fallback), and the first anchor's link, problem, status and the percentage n |
| MossReport.ParseReportsFails | plagiarism.py:61-62 | reading the reports fails exactly when one report's anchors cannot be read |
| MossReport.AboveThreshold | plagiarism.py:61-64 | each record is kept as often as it occurs when its similarity reaches the minimum, and dropped otherwise |
| MossReport.AboveThresholdKeepsOrder | plagiarism.py:61-64 | for every similarity that reaches the minimum, the kept records of that similarity are all the read ones, in reading order; none of a lower similarity is kept |
| MossReport.CheckPlagiarism | plagiarism.py:60-66 | the result is an error exactly when reading the reports fails |
| MossReport.CheckPlagiarismRanks | plagiarism.py:60-66 | the ranking holds exactly the read records that reach the minimum, as a permutation; similarities never increase along it; for each similarity that reaches the minimum, its records appear exactly as in the records read, in reading order |
| CpcTypes.LabelNamesOneUser | template/template.py:77 | a label `name (username)` is never the bare username, and next to a given name two labels are equal exactly when their usernames are |
| Template.Labelled | template/template.py:75-77 | the username is left unchanged exactly when the scoreboard has no non-empty name for it; otherwise it becomes `name (username)` |
| Template.PageResultsInformation | template/template.py:71-78 | the page's reading of an anchor text fails exactly when the plain reading does, and keeps its problem and status |
| Template.PageResultsRoundTrip | template/template.py:71-78 | the text `root/problem/user/file status` reads back with the user labelled and the other fields unchanged |
| Template.EntryOf | template/template.py:36-55 | an entry is built exactly when both anchor texts can be read; it carries the first anchor's link, problem and status, the two users labelled in anchor order, and the two file names in anchor order |
| Template.EntryOfMatch | template/template.py:36-55 | the anchors `root/problem/user/file status` of a match give the entry with the first anchor's link, problem and status, both users labelled and both files, in anchor order |
| Template.StatusKeys | template/template.py:17-18 | the sort keys exist exactly when every status parses, and each is that status's percentage |
| Template.PageInformationFails | template/template.py:21-56 | reading a page fails exactly when pairing fails or some entry's status does not parse |
| Template.PageInformationRanks | template/template.py:21-56 | the page lists the entries of the match pairs, as a permutation, by non-increasing percentage; entries of equal percentage keep page order |
| Template.SectionLabelInjective | template/template.py:13 | for languages written without spaces, two section titles are equal exactly when their languages and their problem aliases are, so a title names one section |
| Template.GenerateWebsiteFails | template/template.py:7-14 | building the page fails exactly when one report cannot be read |
| Template.GenerateWebsiteSections | template/template.py:7-14 | there is one section per report, in report order, titled `lang - problem` and holding that report's entries |
| Util.SchoolName | util.py:27-30 | there is no school exactly when the name has no `-`; otherwise the school is the text after the last `-`, has no `-` itself, and is empty exactly when the name ends with `-` |
| Util.SchoolNameOf | util.py:30 | `prefix-school`, for a school without `-`, gives back exactly that school |
| Util.ColumnWidth | util.py:37 | a column's width is at least the length of each of its cells and equals the length of one of them |
| Util.ColumnWidths | util.py:37 | the widths exist exactly when there is a row and no row is shorter than the first; then there is one per column of the first row, and each is the length of the column's longest cell |
| Util.LeftJustify | util.py:43 | the cell is kept whole and padded on the right with spaces up to the width, and never cut |
| Util.RowLineLength | util.py:40-44 | a printed row is one character longer than the corrected rule, and its closing `\|` is the rule's last column |
| Util.RuleShortOfRows | util.py:38-44 | for the two-column tables the program prints, the rule as written is two characters shorter than a row, so it stops before the closing `\|` |
| Util.RuleShortOfMenu | util.py:37-44 | the menu `0 abc` gets widths 1 and 3, a rule of 10 dashes, and the 12-character row `\| 0 \| abc \| ` |
| Util.PrintTable | util.py:33-45 | the table prints exactly when there is a row and every row has as many cells as the first; it is the rule of `sum(widths) + 6` dashes, one row line per row in order, and the rule again |
| Util.PrintTableMisaligned | util.py:38-44 | as written, no row line is exactly one character longer than the rule, so the rule never ends at the rows' closing `\|` |
| Util.PrintTableCorrected | util.py:33-45 | the corrected table prints exactly when the table as written does, with the same row lines and rules of `sum(widths) + 3·n + 1` dashes |
| Util.OnlyRulesCorrected | util.py:38 | the corrected table differs from the table as written in its two rules only, and always in those |
| Util.PrintTableAligned | util.py:38-45 | in the corrected table, both rules end exactly at the closing `\|` of every row |

## Left out

Where the code's behaviour may be unexpected, the model follows the code:

- Runs are taken in the order the judge returns them, not re-sorted by time.
- Warnings are kept in the order they are raised, neither deduplicated nor sorted (`Heuristics.WarningsInRaisedOrder`).
- The exception counter stops at the first matching line, so the "more than one exception" warning is never raised (`Heuristics.NoExceptionWarning`).
- The report header labels a known username whose scoreboard name is empty as ` (username)`, while the results page and `display_name` show such a user by the bare username (`Heuristics.ReportedName`, `Template.Labelled`).
- A language tag that is not literally a key makes the check raise `KeyError`. It is not mapped to an "unknown" category.
- Sources are saved with the extension of the last key the tag starts with. Since no key is a prefix of another, that is the same as the longest match.

What the model does not cover:

- All I/O: the omegaUp API, the Moss service, reading and writing report files, the cached sources, the credentials file, the HTTP preview server, ANSI colours, and every `print`. The model returns the values that would be printed or written.
- A file written before an exception is left half-written. The model returns only the exception.
- HTML parsing. BeautifulSoup's `find_all("a")` is abstracted to the anchor records. `tag.get("href")` returning `None`, and anchors without text contents, are not modelled.
- The pybars rendering of the results page (`compile_website`). The model stops at the section list handed to it.
- `main._main`, argparse, and the loops over users, problems and Moss languages. Each modelled operation covers one user, one problem or one report.
- `lang_extension_to_moss` is used only to choose the Moss language name, so it is not modelled.
- The file names built from `floor(run.score * 100)` are floating point and file-system work, so they are not modelled.
- `_remove_same_user_matches` at main.py:167-194 and `status_as_int` at template/template.py:17-18 are line-for-line copies of the plagiarism.py code. Each is modelled once, by `MossReport.RemoveSameUserMatches` and `MossReport.SimilarityPerc`.
- Times are whole seconds, not `timedelta` values. `math.ceil` of a float division becomes integer ceiling division.
- The several-languages warning carries the set of extensions itself, not Python's text rendering of the set, whose element order is unspecified.
- Selection.ChooseContest: takes the typed number as an integer. A text that `int()` rejects would raise `ValueError`, and that is not modelled.
- Strings.ParseInt: accepts only non-empty strings of ASCII decimal digits. The signs, surrounding whitespace and underscores that Python's `int()` also accepts are not modelled, and neither are the non-ASCII Unicode decimal digits it accepts (Arabic-Indic or full-width digits, for example).
- Heuristics.Lower: lower-cases ASCII capitals and Á É Í Ó Ú only. No other character lower-cases to one of the five accented vowels, so the accent count is exact, but other characters are not lower-cased.
- A scoreboard name that is `None` is not modelled. Names are a map from username to string.
- `get_credentials_from_file` is console and file I/O, so it is not modelled.

## Findings

| source | as written | input that shows it | evidently intended | confidence | as-written member | corrected member |
|---|---|---|---|---|---|---|
| util.py:38 | the rule above and below a table is `sum(col_widths) + 6` dashes wide, while each row prints `\| ` plus `width + 3` characters per column, so its closing `\|` is at column `sum + 3·n + 1` | the contest menu `[["0", "abc"]]`: widths 1 and 3, a rule of 10 dashes, and the row `\| 0 \| abc \| ` whose closing `\|` is the 11th character | the rule spans the row up to its closing `\|`, which is `sum + 3·n + 1` dashes | medium (cosmetic; the rule is one dash short for the two-column menus the program prints); not executed | Util.RuleShortOfMenu | Util.PrintTableAligned |

`Util.RuleShortOfRows` states the general two-column case of the finding, and `Util.PrintTableMisaligned` states that the rule as written is misaligned for every table. `Util.PrintTable` models the table as written; `Util.PrintTableCorrected` draws the corrected rule `Util.RuleWidth`.
