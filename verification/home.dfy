/** The home page: the signed-in player's buffalo totals, the count of
    players still to submit, the competition phase, the rank badges and
    the collapsed "+n more" lists. */
module Home {
  import opened Tables
  import opened Seqs
  import opened Text
  import opened Ledger
  import opened Board

  /** The "You Have" figure: the balances of the rows where `me` is the
      caller in `year`, counting only positive balances as the query does. */
  function YouHave(balances: seq<BalanceRow>, me: UserId, year: Year): int {
    SumBalances(Filter(balances, (b: BalanceRow) => b.caller == me && b.year == year && b.balance > 0))
  }

  /** The "You Owe" figure: the same with `me` as the recipient. */
  function YouOwe(balances: seq<BalanceRow>, me: UserId, year: Year): int {
    SumBalances(Filter(balances, (b: BalanceRow) => b.recipient == me && b.year == year && b.balance > 0))
  }

  /** The home page and the board agree: what a player has and owes on the
      home page are the board's "can call" and "owes" totals for them. */
  lemma {:induction false} HomeMatchesBoard(balances: seq<BalanceRow>, me: UserId, year: Year)
    ensures YouHave(balances, me, year) == PlayerTotals(LoadBoard(balances, year), me).canCall
    ensures YouOwe(balances, me, year) == PlayerTotals(LoadBoard(balances, year), me).owes
  {
    FilterFilter(balances, (b: BalanceRow) => b.year == year && b.balance > 0,
                 (b: BalanceRow) => Party(b, AsCaller) == me,
                 (b: BalanceRow) => b.caller == me && b.year == year && b.balance > 0);
    FilterFilter(balances, (b: BalanceRow) => b.year == year && b.balance > 0,
                 (b: BalanceRow) => Party(b, AsRecipient) == me,
                 (b: BalanceRow) => b.recipient == me && b.year == year && b.balance > 0);
  }

  /** Both figures are sums of positive balances, so neither is negative. */
  lemma {:induction false} HomeFiguresNonNegative(balances: seq<BalanceRow>, me: UserId, year: Year)
    ensures YouHave(balances, me, year) >= 0 && YouOwe(balances, me, year) >= 0
  {
    HomeMatchesBoard(balances, me, year);
    var board := LoadBoard(balances, year);
    assert NonNegative(board);
  }

  /** `pendingCount`: players who have not submitted. */
  function PendingCount(totalPlayers: nat, submittedCount: nat): int {
    totalPlayers - submittedCount
  }

  datatype Phase = ResultsIn | Live | ResultsPending

  /** `getCompetitionPhase()`. */
  function CompetitionPhase(hasScore: bool, submittedCount: nat, totalPlayers: nat): (p: Phase)
    ensures p == ResultsIn <==> hasScore
    ensures p == Live <==> !hasScore && (submittedCount == 0 || submittedCount < totalPlayers)
  {
    if hasScore then ResultsIn
    else if submittedCount == 0 then Live
    else if submittedCount < totalPlayers then Live
    else ResultsPending
  }

  /** Without a score, results are pending exactly when someone has
      submitted and nobody is left to submit. */
  lemma {:induction false} PhaseFollowsPendingCount(submittedCount: nat, totalPlayers: nat)
    ensures CompetitionPhase(false, submittedCount, totalPlayers) == ResultsPending <==>
      submittedCount > 0 && PendingCount(totalPlayers, submittedCount) <= 0
  {
  }

  /** `getRankIcon` of the home page. */
  function RankIcon(rank: int): string
  {
    if rank == 1 then "\U{1F947}"
    else if rank == 2 then "\U{1F948}"
    else if rank == 3 then "\U{1F949}"
    else "4th"
  }

  /** `getRankColor` of the home page. */
  function RankColor(rank: int): string {
    if rank == 1 then "text-yellow-500"
    else if rank == 2 then "text-zinc-400"
    else if rank == 3 then "text-amber-700"
    else "text-zinc-500"
  }

  /** Icon and colour split the ranks the same way: two ranks share an
      icon exactly when they share a colour, and the first three ranks
      each have their own. */
  lemma {:induction false} IconAndColourAgree(a: int, b: int)
    ensures RankIcon(a) == RankIcon(b) <==> RankColor(a) == RankColor(b)
    ensures RankIcon(a) == RankIcon(b) <==> a == b || (a !in {1, 2, 3} && b !in {1, 2, 3})
  {
    assert "text-yellow-500"[5] == 'y' && "text-zinc-400"[5] == 'z' && "text-amber-700"[5] == 'a';
    assert "text-zinc-400"[10] == '4' && "text-zinc-500"[10] == '5';
    assert "4th"[0] == '4';
  }

  /** `list.slice(0, showAll ? undefined : 2)`. */
  function Visible<T>(list: seq<T>, showAll: bool): (r: seq<T>)
    ensures showAll ==> r == list
    ensures !showAll ==> |r| == (if |list| < 2 then |list| else 2) && r == list[..|r|]
  {
    if showAll then list else Take(list, 2)
  }

  /** The toggle button's label; none when the list has two entries or fewer. */
  function ToggleLabel(length: nat, showAll: bool): Option<string> {
    if length <= 2 then None
    else if showAll then Some("Show Less")
    else Some("+" + NatToString(length - 2) + " more")
  }

  /** The collapsed list's "+n more" names exactly the entries it hides,
      and the toggle appears exactly when collapsing hides something. */
  lemma {:induction false} ToggleCountsHidden<T>(list: seq<T>)
    ensures ToggleLabel(|list|, false).Some? <==> |Visible(list, false)| < |list|
    ensures ToggleLabel(|list|, false).Some? ==>
      ToggleLabel(|list|, false).value == "+" + NatToString(|list| - |Visible(list, false)|) + " more"
  {
  }
}
