/**
 The display helpers: the school part of a contestant's display name and
 the layout of the console tables.
 */
module Util {
  import opened Outcomes
  import opened Strings

  // ---------------------------------------------------------------------
  // school names
  // ---------------------------------------------------------------------

  /** `get_school_name`: the text after the last `-` of the display name,
      or nothing when the name has no `-`. */
  function SchoolName(displayName: string): (r: Option<string>)
    ensures r.None? <==> '-' !in displayName
    ensures r.Some? ==> '-' !in r.value
    ensures r.Some? ==> && |r.value| < |displayName|
                        && displayName[|displayName| - |r.value| - 1] == '-'
                        && displayName[|displayName| - |r.value|..] == r.value
    ensures r.Some? ==> (r.value == "" <==> displayName[|displayName| - 1] == '-')
  {
    if '-' !in displayName then None
    else
      var parts := Split(displayName, '-');
      SplitOnePart(displayName, '-');
      JoinEndsWithLast(parts, '-');
      var school := parts[|parts| - 1];
      assert |school| > 0 ==> school[|school| - 1] == displayName[|displayName| - 1];
      Some(school)
  }

  /** A name made of any prefix, a `-` and a school without `-` yields that
      school. */
  lemma SchoolNameOf(prefix: string, school: string)
    requires '-' !in school
    ensures SchoolName(prefix + "-" + school) == Some(school)
  {
    var d := prefix + "-" + school;
    assert d[|prefix|] == '-';
    assert d[|d| - |school|..] == school;
  }

  // ---------------------------------------------------------------------
  // console tables
  // ---------------------------------------------------------------------

  /** Every row has a cell in column `i`. */
  predicate HasColumn(rows: seq<seq<string>>, i: nat) {
    forall k :: 0 <= k < |rows| ==> i < |rows[k]|
  }

  /** `max(len(str(row[i])) for row in rows)` */
  function ColumnWidth(rows: seq<seq<string>>, i: nat): (w: nat)
    requires |rows| > 0 && HasColumn(rows, i)
    ensures forall k :: 0 <= k < |rows| ==> |rows[k][i]| <= w
    ensures exists k :: 0 <= k < |rows| && |rows[k][i]| == w
    decreases |rows|
  {
    if |rows| == 1 then |rows[0][i]|
    else
      var rest := ColumnWidth(rows[1..], i);
      assert forall k :: 1 <= k < |rows| ==> rows[k] == rows[1..][k - 1];
      if |rows[0][i]| > rest then |rows[0][i]| else rest
  }

  /** No row is shorter than the first. */
  predicate NoRowShorter(rows: seq<seq<string>>)
    requires |rows| > 0
  {
    forall k :: 0 <= k < |rows| ==> |rows[0]| <= |rows[k]|
  }

  /** The column widths of `print_table`, one per cell of the first row;
      an empty table, or a row shorter than the first, reads past the end
      of a list. */
  function ColumnWidths(rows: seq<seq<string>>): (r: Result<seq<nat>>)
    ensures r.Ok? <==> |rows| > 0 && NoRowShorter(rows)
    ensures r.Ok? ==> |r.value| == |rows[0]|
    ensures r.Ok? ==> forall i, k :: 0 <= i < |r.value| && 0 <= k < |rows| ==> |rows[k][i]| <= r.value[i]
    ensures r.Ok? ==> forall i :: 0 <= i < |r.value| ==> exists k :: 0 <= k < |rows| && |rows[k][i]| == r.value[i]
  {
    if |rows| == 0 || !NoRowShorter(rows) then Err(IndexError)
    else Ok(seq(|rows[0]|, i requires 0 <= i < |rows[0]| && HasColumn(rows, i) => ColumnWidth(rows, i)))
  }

  function Sum(ws: seq<nat>): nat
    decreases |ws|
  {
    if |ws| == 0 then 0 else ws[0] + Sum(ws[1..])
  }

  /** `n` spaces. */
  function Spaces(n: nat): (s: string)
    ensures |s| == n
  {
    seq(n, _ => ' ')
  }

  /** `text.ljust(width)` */
  function LeftJustify(text: string, width: nat): (s: string)
    ensures |s| == if |text| < width then width else |text|
    ensures s[..|text|] == text
    ensures forall j | |text| <= j < |s| :: s[j] == ' '
  {
    if |text| < width then text + Spaces(width - |text|) else text
  }

  /** The cells of one printed row from column `i` on, each followed by ` | `. */
  function Cells(row: seq<string>, widths: seq<nat>, i: nat): string
    requires i <= |row| <= |widths|
    decreases |row| - i
  {
    if i == |row| then "" else LeftJustify(row[i], widths[i]) + " | " + Cells(row, widths, i + 1)
  }

  /** One printed row: `| ` and then the cells. */
  function RowLine(row: seq<string>, widths: seq<nat>): string
    requires |row| <= |widths|
  {
    "| " + Cells(row, widths, 0)
  }

  /** The width of the horizontal rule as `print_table` computes it. */
  function RuleWidthAsWritten(widths: seq<nat>): nat {
    Sum(widths) + 6
  }

  /** The width of the printed rows up to their closing `|`. */
  function RuleWidth(widths: seq<nat>): nat {
    Sum(widths) + 3 * |widths| + 1
  }

  lemma {:induction false} CellsLength(row: seq<string>, widths: seq<nat>, i: nat)
    requires i <= |row| == |widths|
    requires forall j :: i <= j < |row| ==> |row[j]| <= widths[j]
    ensures |Cells(row, widths, i)| == Sum(widths[i..]) + 3 * (|row| - i)
    decreases |row| - i
  {
    if i < |row| {
      CellsLength(row, widths, i + 1);
      assert widths[i..][1..] == widths[i + 1..];
    }
  }

  /** A row whose cells fit their columns is `RuleWidth` long up to its
      closing `|`, and one space longer in all. */
  lemma RowLineLength(row: seq<string>, widths: seq<nat>)
    requires |row| == |widths|
    requires forall j :: 0 <= j < |row| ==> |row[j]| <= widths[j]
    ensures |RowLine(row, widths)| == RuleWidth(widths) + 1
    ensures |row| > 0 ==> RowLine(row, widths)[RuleWidth(widths) - 1] == '|'
  {
    CellsLength(row, widths, 0);
    assert widths[0..] == widths;
    if |row| > 0 {
      CellsEnd(row, widths, 0);
    }
  }

  lemma {:induction false} CellsEnd(row: seq<string>, widths: seq<nat>, i: nat)
    requires i < |row| == |widths|
    requires forall j :: i <= j < |row| ==> |row[j]| <= widths[j]
    ensures var c := Cells(row, widths, i); |c| >= 3 && c[|c| - 3..] == " | "
    decreases |row| - i
  {
    if i + 1 < |row| {
      CellsEnd(row, widths, i + 1);
    }
  }

  /** The rule `print_table` draws for a two-column table stops one
      character short of the rows' closing `|`. */
  lemma RuleShortOfRows(row: seq<string>, widths: seq<nat>)
    requires |row| == |widths| == 2
    requires forall j :: 0 <= j < |row| ==> |row[j]| <= widths[j]
    ensures RuleWidthAsWritten(widths) == |RowLine(row, widths)| - 2
  {
    RowLineLength(row, widths);
  }

  /** The contest menu `[["0", "abc"]]` is ruled with ten dashes, while
      its row `| 0 | abc |` is eleven characters wide. */
  lemma RuleShortOfMenu()
    ensures ColumnWidths([["0", "abc"]]) == Ok([1, 3])
    ensures RuleWidthAsWritten([1, 3]) == 10
    ensures RowLine(["0", "abc"], [1, 3]) == "| 0 | abc | "
  {
    var rows := [["0", "abc"]];
    assert ColumnWidth(rows, 0) == 1;
    assert ColumnWidth(rows, 1) == 3;
    assert ColumnWidths(rows).value == [1, 3];
    assert Sum([1, 3]) == 4 by {
      assert [1, 3][1..] == [3];
      assert [3][1..] == [];
    }
    assert LeftJustify("0", 1) == "0";
    assert LeftJustify("abc", 3) == "abc";
  }

  /** A horizontal rule of `width` dashes. */
  function Rule(width: nat): (s: string)
    ensures |s| == width
    ensures forall j :: 0 <= j < width ==> s[j] == '-'
  {
    seq(width, _ => '-')
  }

  /** The lines of a table ruled with `ruleWidth` dashes: the rule, one
      line per row, and the rule again. */
  function Ruled(rows: seq<seq<string>>, widths: seq<nat>, ruleWidth: nat): (lines: seq<string>)
    requires forall k :: 0 <= k < |rows| ==> |rows[k]| <= |widths|
    ensures |lines| == |rows| + 2
    ensures lines[0] == Rule(ruleWidth) && lines[|rows| + 1] == Rule(ruleWidth)
    ensures forall k :: 0 <= k < |rows| ==> lines[k + 1] == RowLine(rows[k], widths)
  {
    [Rule(ruleWidth)] + seq(|rows|, k requires 0 <= k < |rows| => RowLine(rows[k], widths)) + [Rule(ruleWidth)]
  }

  /** `print_table` up to the printing, as written: the rule of
      `sum(col_widths) + 6` dashes, one line per row, and the rule again.
      A row longer than the first reads past the end of the widths, one
      shorter past the end of itself. */
  function PrintTable(rows: seq<seq<string>>): (r: Result<seq<string>>)
    ensures r.Ok? <==> |rows| > 0 && forall k :: 0 <= k < |rows| ==> |rows[k]| == |rows[0]|
    ensures r.Ok? ==> |r.value| == |rows| + 2
    ensures r.Ok? ==> var rule := Rule(RuleWidthAsWritten(ColumnWidths(rows).value));
                      r.value[0] == rule && r.value[|rows| + 1] == rule
    ensures r.Ok? ==> forall k :: 0 <= k < |rows| ==> r.value[k + 1] == RowLine(rows[k], ColumnWidths(rows).value)
  {
    var widths :- ColumnWidths(rows);
    if exists k :: 0 <= k < |rows| && |rows[k]| > |widths| then Err(IndexError)
    else Ok(Ruled(rows, widths, RuleWidthAsWritten(widths)))
  }

  /** The table as evidently intended: the same lines, with both rules
      reaching the rows' closing `|`. */
  function PrintTableCorrected(rows: seq<seq<string>>): (r: Result<seq<string>>)
    ensures r.Ok? <==> |rows| > 0 && forall k :: 0 <= k < |rows| ==> |rows[k]| == |rows[0]|
    ensures r.Ok? ==> |r.value| == |rows| + 2
    ensures r.Ok? ==> var rule := Rule(RuleWidth(ColumnWidths(rows).value));
                      r.value[0] == rule && r.value[|rows| + 1] == rule
    ensures r.Ok? ==> forall k :: 0 <= k < |rows| ==> r.value[k + 1] == RowLine(rows[k], ColumnWidths(rows).value)
  {
    var widths :- ColumnWidths(rows);
    if exists k :: 0 <= k < |rows| && |rows[k]| > |widths| then Err(IndexError)
    else Ok(Ruled(rows, widths, RuleWidth(widths)))
  }

  /** The corrected table prints whenever the table as written does, with
      the same row lines; only the two rules differ, and they always do. */
  lemma OnlyRulesCorrected(rows: seq<seq<string>>)
    ensures PrintTableCorrected(rows).Ok? <==> PrintTable(rows).Ok?
    ensures PrintTable(rows).Ok? ==>
              var written, corrected := PrintTable(rows).value, PrintTableCorrected(rows).value;
              && |written| == |corrected|
              && written[0] != corrected[0] && written[|rows| + 1] != corrected[|rows| + 1]
              && forall k :: 1 <= k <= |rows| ==> written[k] == corrected[k]
  {
    if PrintTable(rows).Ok? {
      var widths := ColumnWidths(rows).value;
      assert |Rule(RuleWidthAsWritten(widths))| != |Rule(RuleWidth(widths))|;
    }
  }

  /** As written, the rule never ends where the rows' closing `|` is: a
      row is `3 * n + sum + 2` characters long, the rule `sum + 6`, and
      `3 * n` is never 5. */
  lemma PrintTableMisaligned(rows: seq<seq<string>>)
    requires PrintTable(rows).Ok?
    ensures var lines := PrintTable(rows).value;
            forall k :: 1 <= k < |lines| - 1 ==> |lines[k]| != |lines[0]| + 1
  {
    var widths := ColumnWidths(rows).value;
    var lines := PrintTable(rows).value;
    forall k | 1 <= k < |lines| - 1 ensures |lines[k]| != |lines[0]| + 1 {
      RowLineLength(rows[k - 1], widths);
    }
  }

  /** Both rules of `lines` have the same width, and every row line is one
      character longer, with its closing `|` in the rules' last column. */
  predicate Aligned(lines: seq<string>, rows: seq<seq<string>>)
    requires |lines| == |rows| + 2
  {
    && |lines[|lines| - 1]| == |lines[0]|
    && forall k :: 1 <= k < |lines| - 1 ==>
         && |lines[k]| == |lines[0]| + 1
         && (|rows[k - 1]| > 0 ==> |lines[0]| > 0 && lines[k][|lines[0]| - 1] == '|')
  }

  /** Every line of a printed table has the same width up to its last
      non-blank character: the rules end where the rows' closing `|` is. */
  lemma PrintTableAligned(rows: seq<seq<string>>)
    requires PrintTableCorrected(rows).Ok?
    ensures Aligned(PrintTableCorrected(rows).value, rows)
  {
    var widths := ColumnWidths(rows).value;
    CorrectedIsRuled(rows);
    RuledAligned(rows, widths);
  }

  /** A corrected table that prints is its rows ruled with the corrected
      width, and its cells fit their columns. */
  lemma CorrectedIsRuled(rows: seq<seq<string>>)
    requires PrintTableCorrected(rows).Ok?
    ensures ColumnWidths(rows).Ok?
    ensures var widths := ColumnWidths(rows).value;
            && (forall k :: 0 <= k < |rows| ==> |rows[k]| == |widths|)
            && (forall k, j :: 0 <= k < |rows| && 0 <= j < |widths| ==> |rows[k][j]| <= widths[j])
            && PrintTableCorrected(rows).value == Ruled(rows, widths, RuleWidth(widths))
  {
  }

  /** The lines of a table whose cells fit their columns, ruled with the
      corrected width. */
  lemma RuledAligned(rows: seq<seq<string>>, widths: seq<nat>)
    requires forall k :: 0 <= k < |rows| ==> |rows[k]| == |widths|
    requires forall k, j :: 0 <= k < |rows| && 0 <= j < |widths| ==> |rows[k][j]| <= widths[j]
    ensures Aligned(Ruled(rows, widths, RuleWidth(widths)), rows)
  {
    var lines := Ruled(rows, widths, RuleWidth(widths));
    forall k | 1 <= k < |lines| - 1
      ensures |lines[k]| == |lines[0]| + 1
      ensures |rows[k - 1]| > 0 ==> |lines[0]| > 0 && lines[k][|lines[0]| - 1] == '|'
    {
      RowLineLength(rows[k - 1], widths);
    }
  }
}
