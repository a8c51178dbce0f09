/** The buffalo board: the current year's positive balances shown as
    per-player totals, a leaderboard ordered by how many buffalos each
    player can call, and a caller-by-recipient matrix. */
module Board {
  import opened Tables
  import opened Seqs
  import opened Ledger

  /** The rows the board loads: the given year's, with a positive balance. */
  function LoadBoard(balances: seq<BalanceRow>, year: Year): (r: seq<BalanceRow>)
    ensures forall b :: b in r <==> b in balances && b.year == year && b.balance > 0
    ensures forall i :: 0 <= i < |r| ==> r[i].balance > 0
  {
    Filter(balances, (b: BalanceRow) => b.year == year && b.balance > 0)
  }

  /** `getBuffalosBetween(c, r)`: the balance of the first loaded row from
      `c` to `r`, or 0 when there is none. */
  function BuffalosBetween(board: seq<BalanceRow>, c: UserId, r: UserId): (n: int)
    ensures (forall i :: 0 <= i < |board| ==> board[i].balance > 0) ==> n >= 0
  {
    match Find(board, (b: BalanceRow) => b.caller == c && b.recipient == r)
    case Some(b) => if b.balance == 0 then 0 else b.balance
    case None => 0
  }

  /** On a ledger with unique keys, the board shows for each pair the
      pair's balance when it is positive, and 0 otherwise. */
  lemma {:induction false} BuffalosBetweenIsBalance(balances: seq<BalanceRow>, year: Year, c: UserId, r: UserId)
    requires UniqueKeys(balances)
    ensures var n := BalanceOf(balances, PairKey(c, r, year));
      BuffalosBetween(LoadBoard(balances, year), c, r) == if n > 0 then n else 0
  {
    var board := LoadBoard(balances, year);
    var key := PairKey(c, r, year);
    var f := Find(board, (b: BalanceRow) => b.caller == c && b.recipient == r);
    if f.Some? {
      assert KeyOf(f.value) == key;
      BalanceOfMember(balances, f.value);
    } else if HasKey(balances, key) {
      var i :| 0 <= i < |balances| && KeyOf(balances[i]) == key;
      BalanceOfMember(balances, balances[i]);
      assert balances[i] !in board;
    } else {
      BalanceOfAbsent(balances, key);
    }
  }

  /** What `getPlayerTotals` returns. */
  datatype Totals = Totals(canCall: int, owes: int)

  /** `getPlayerTotals(p)`: the balances `p` holds as caller, and those held
      on `p` as recipient, added up. */
  function PlayerTotals(board: seq<BalanceRow>, p: UserId): (t: Totals)
    ensures NonNegative(board) ==> t.canCall >= 0 && t.owes >= 0
  {
    var t := Totals(SideTotal(board, p, AsCaller), SideTotal(board, p, AsRecipient));
    PartyRowsNonNegative(board, p, AsCaller);
    PartyRowsNonNegative(board, p, AsRecipient);
    t
  }

  lemma {:induction false} PartyRowsNonNegative(rows: seq<BalanceRow>, p: UserId, side: Side)
    ensures NonNegative(rows) ==> SideTotal(rows, p, side) >= 0
  {
    var f := PartyRows(rows, p, side);
    if !NonNegative(rows) {
      return;
    }
    forall i | 0 <= i < |f|
      ensures f[i].balance >= 0
    {
      assert f[i] in f;
      var j :| 0 <= j < |rows| && rows[j] == f[i];
    }
    SumBalancesNonNegative(f);
  }

  function Ids(players: seq<Profile>): (r: seq<UserId>)
    ensures |r| == |players|
    ensures forall i :: 0 <= i < |players| ==> r[i] == players[i].id
  {
    if |players| == 0 then [] else [players[0].id] + Ids(players[1..])
  }

  /** Summed over all players, what the players can call equals what they
      owe: each loaded row counts once on each side, provided every row's
      caller and recipient is one of the listed players, whose ids are
      distinct. */
  lemma {:induction false} TotalsBalance(board: seq<BalanceRow>, profiles: seq<Profile>)
    requires NoDuplicates(Ids(profiles))
    requires forall b :: b in board ==> b.caller in Ids(profiles) && b.recipient in Ids(profiles)
    ensures TotalOver(Ids(profiles), board, AsCaller) == TotalOver(Ids(profiles), board, AsRecipient)
  {
    var players := Ids(profiles);
    TotalOverIsSum(players, board, AsCaller);
    TotalOverIsSum(players, board, AsRecipient);
  }

  /** `sortedPlayers`: the profiles ordered by how many buffalos they can
      call, most first. */
  function SortedPlayers(profiles: seq<Profile>, board: seq<BalanceRow>): (r: seq<Profile>)
    ensures multiset(r) == multiset(profiles)
    ensures forall i, j :: 0 <= i < j < |r| ==>
      PlayerTotals(board, r[i].id).canCall >= PlayerTotals(board, r[j].id).canCall
  {
    SortDesc(profiles, (p: Profile) => PlayerTotals(board, p.id).canCall)
  }

  /** How a matrix cell is drawn. */
  datatype Cell =
    | Diagonal          // a player against themself: a dash, no count
    | Mine(count: int)  // green: the signed-in user can call these
    | Owed(count: int)  // red: buffalos on the signed-in user
    | Other(count: int) // blue: between two other players
    | Empty             // grey 0

  /** The cell in the row of `caller` and the column of `recipient`, as seen
      by `user`. */
  function CellAt(board: seq<BalanceRow>, user: Option<UserId>, caller: UserId, recipient: UserId): (c: Cell)
    ensures c.Diagonal? <==> caller == recipient
    ensures c.Mine? <==> caller != recipient && BuffalosBetween(board, caller, recipient) > 0 && user == Some(caller)
    ensures c.Owed? <==> caller != recipient && BuffalosBetween(board, caller, recipient) > 0 && user == Some(recipient)
    ensures c.Empty? <==> caller != recipient && BuffalosBetween(board, caller, recipient) <= 0
    ensures c.Mine? || c.Owed? || c.Other? ==> c.count == BuffalosBetween(board, caller, recipient) > 0
  {
    if caller == recipient then Diagonal
    else
      var count := BuffalosBetween(board, caller, recipient);
      var involved := user == Some(caller) || user == Some(recipient);
      if count > 0 then
        if involved && user == Some(caller) then Mine(count)
        else if involved && user == Some(recipient) then Owed(count)
        else Other(count)
      else Empty
  }

  /** For the signed-in user `u` and another player `v`, the user's own row
      shows green exactly where they hold a positive balance on `v`, and
      the user's column shows red exactly where `v` holds one on them. */
  lemma {:induction false} CellsMirror(balances: seq<BalanceRow>, year: Year, u: UserId, v: UserId)
    requires UniqueKeys(balances) && u != v
    ensures CellAt(LoadBoard(balances, year), Some(u), u, v).Mine? <==> BalanceOf(balances, PairKey(u, v, year)) > 0
    ensures CellAt(LoadBoard(balances, year), Some(u), v, u).Owed? <==> BalanceOf(balances, PairKey(v, u, year)) > 0
    ensures !CellAt(LoadBoard(balances, year), Some(u), v, u).Mine? && !CellAt(LoadBoard(balances, year), Some(u), u, v).Owed?
  {
    BuffalosBetweenIsBalance(balances, year, u, v);
    BuffalosBetweenIsBalance(balances, year, v, u);
  }
}
