/**
 The interactive choice of a contest and of its problems: a numbered menu
 is printed, the number typed is checked against it, and an invalid number
 ends the program with exit status 1.
 */
module Selection {
  import opened Outcomes
  import opened Strings

  /** The menu of `_choose_contest_interactively`: row `[str(idx), alias]`
      for every contest, numbered from 0. */
  function ContestMenu(aliases: seq<string>): (rows: seq<seq<string>>)
    ensures |rows| == |aliases|
  {
    seq(|aliases|, k requires 0 <= k < |aliases| => [Decimal(k), aliases[k]])
  }

  /** The contest chosen by the number typed. */
  function ChooseContest(aliases: seq<string>, typed: int): (r: Result<string>)
    ensures r.Ok? <==> 0 <= typed < |aliases|
    ensures r.Err? ==> r.error == SystemExit(1)
  {
    if typed < 0 || typed >= |aliases| then Err(SystemExit(1))
    else Ok(aliases[typed])
  }

  /** Two naturals with the same numeral are equal. */
  lemma DecimalInjective(a: nat, b: nat)
    requires Decimal(a) == Decimal(b)
    ensures a == b
  {
    assert DigitsValue(Decimal(a)) == a;
  }

  /** A number is accepted exactly when it is printed on a row of the menu,
      and the contest chosen is the one printed on that row. */
  lemma ContestChoiceFollowsMenu(aliases: seq<string>, typed: int)
    ensures var menu := ContestMenu(aliases);
            ChooseContest(aliases, typed).Ok?
            <==> typed >= 0 && exists i | 0 <= i < |menu| :: menu[i][0] == Decimal(typed)
    ensures var menu := ContestMenu(aliases);
            forall i | 0 <= i < |menu| && typed >= 0 && menu[i][0] == Decimal(typed) ::
              ChooseContest(aliases, typed) == Ok(menu[i][1])
  {
    var menu := ContestMenu(aliases);
    if 0 <= typed < |aliases| {
      assert menu[typed][0] == Decimal(typed);
    }
    forall i | 0 <= i < |menu| && typed >= 0 && menu[i][0] == Decimal(typed)
      ensures i == typed
    {
      DecimalInjective(i, typed);
    }
  }

  /** The menu of `_choose_problems_interactively`: row `[0, "all"]`, then
      row `[str(idx + 1), alias]` for every problem. */
  function ProblemMenu(aliases: seq<string>): (rows: seq<seq<string>>)
    ensures |rows| == |aliases| + 1
  {
    [["0", "all"]] + seq(|aliases|, k requires 0 <= k < |aliases| => [Decimal(k + 1), aliases[k]])
  }

  /** The problems chosen by the number typed: 0 for all of them, in
      contest order, or the problem numbered `typed`. */
  function ChooseProblems(aliases: seq<string>, typed: int): (r: Result<seq<string>>)
    ensures r.Ok? <==> 0 <= typed <= |aliases|
    ensures r.Err? ==> r.error == SystemExit(1)
    ensures r.Ok? && typed > 0 ==> |r.value| == 1
  {
    if typed < 0 || typed >= |aliases| + 1 then Err(SystemExit(1))
    else if typed == 0 then Ok(aliases)
    else Ok([aliases[typed - 1]])
  }

  /** A number is accepted exactly when it is printed on a row of the menu;
      the row `0` chooses every problem and any other row the problem
      printed on it. */
  lemma ProblemChoiceFollowsMenu(aliases: seq<string>, typed: int)
    ensures var menu := ProblemMenu(aliases);
            ChooseProblems(aliases, typed).Ok?
            <==> typed >= 0 && exists i | 0 <= i < |menu| :: menu[i][0] == Decimal(typed)
    ensures var menu := ProblemMenu(aliases);
            forall i | 0 <= i < |menu| && typed >= 0 && menu[i][0] == Decimal(typed) ::
              ChooseProblems(aliases, typed) == Ok(if i == 0 then aliases else [menu[i][1]])
  {
    var menu := ProblemMenu(aliases);
    assert Decimal(0) == "0";
    if 0 <= typed <= |aliases| {
      assert menu[typed][0] == Decimal(typed);
    }
    forall i | 0 <= i < |menu| && typed >= 0 && menu[i][0] == Decimal(typed)
      ensures i == typed
    {
      DecimalInjective(i, typed);
    }
  }
}
