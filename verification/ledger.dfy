/** The `buffalo_balances` table: rows keyed by (caller, recipient, year)
    holding how many buffalos the caller may still call, and the reads
    and writes the pages perform on it. */
module Ledger {
  import opened Tables
  import opened Seqs

  /** The rows a query filtered on caller, recipient and year returns. */
  function Matching(rows: seq<BalanceRow>, k: PairKey): (r: seq<BalanceRow>)
    ensures forall b :: b in r <==> b in rows && KeyOf(b) == k
  {
    Filter(rows, (b: BalanceRow) => KeyOf(b) == k)
  }

  /** `.eq('caller_id', ..).eq('recipient_id', ..).eq('year', ..).maybeSingle()`. */
  function Lookup(rows: seq<BalanceRow>, k: PairKey): Single<BalanceRow> {
    MaybeSingle(Matching(rows, k))
  }

  /** No two rows share a key, as the table's uniqueness on (caller,
      recipient, year) guarantees. */
  ghost predicate UniqueKeys(rows: seq<BalanceRow>) {
    forall i, j :: 0 <= i < j < |rows| ==> KeyOf(rows[i]) != KeyOf(rows[j])
  }

  /** No balance is negative. */
  ghost predicate NonNegative(rows: seq<BalanceRow>) {
    forall i :: 0 <= i < |rows| ==> rows[i].balance >= 0
  }

  predicate HasKey(rows: seq<BalanceRow>, k: PairKey) {
    exists i :: 0 <= i < |rows| && KeyOf(rows[i]) == k
  }

  /** The balance of a pair: that of its first row, or 0 when the pair has
      no row. With unique keys the first row is the only one. */
  function BalanceOf(rows: seq<BalanceRow>, k: PairKey): int {
    if |rows| == 0 then 0
    else if KeyOf(rows[0]) == k then rows[0].balance
    else BalanceOf(rows[1..], k)
  }

  lemma {:induction false} BalanceOfAbsent(rows: seq<BalanceRow>, k: PairKey)
    requires !HasKey(rows, k)
    ensures BalanceOf(rows, k) == 0
  {
    if |rows| > 0 {
      HasKeyCons(rows, k);
      BalanceOfAbsent(rows[1..], k);
    }
  }

  lemma {:induction false} BalanceOfNonNegative(rows: seq<BalanceRow>, k: PairKey)
    requires NonNegative(rows)
    ensures BalanceOf(rows, k) >= 0
  {
    if |rows| > 0 && KeyOf(rows[0]) != k {
      BalanceOfNonNegative(rows[1..], k);
    }
  }

  lemma {:induction false} HasKeyCons(rows: seq<BalanceRow>, k: PairKey)
    requires |rows| > 0
    ensures HasKey(rows, k) <==> KeyOf(rows[0]) == k || HasKey(rows[1..], k)
  {
    if HasKey(rows, k) && KeyOf(rows[0]) != k {
      var i :| 0 <= i < |rows| && KeyOf(rows[i]) == k;
      assert KeyOf(rows[1..][i - 1]) == k;
    }
    if HasKey(rows[1..], k) {
      var i :| 0 <= i < |rows[1..]| && KeyOf(rows[1..][i]) == k;
      assert KeyOf(rows[i + 1]) == k;
    }
  }

  lemma {:induction false} UniqueKeysTail(rows: seq<BalanceRow>)
    requires |rows| > 0 && UniqueKeys(rows)
    ensures UniqueKeys(rows[1..]) && !HasKey(rows[1..], KeyOf(rows[0]))
  {
    var rest := rows[1..];
    forall i, j | 0 <= i < j < |rest|
      ensures KeyOf(rest[i]) != KeyOf(rest[j])
    {
      assert rest[i] == rows[i + 1] && rest[j] == rows[j + 1];
    }
  }

  lemma {:induction false} MatchingCons(rows: seq<BalanceRow>, k: PairKey)
    requires |rows| > 0
    ensures Matching(rows, k) == (if KeyOf(rows[0]) == k then [rows[0]] else []) + Matching(rows[1..], k)
  {
  }

  lemma {:induction false} MatchingAbsent(rows: seq<BalanceRow>, k: PairKey)
    requires !HasKey(rows, k)
    ensures Matching(rows, k) == []
  {
    if |rows| > 0 {
      HasKeyCons(rows, k);
      MatchingCons(rows, k);
      MatchingAbsent(rows[1..], k);
    }
  }

  /** With unique keys, `maybeSingle` finds a row exactly when the pair has
      one, and that row holds the pair's balance. */
  lemma {:induction false} LookupUnique(rows: seq<BalanceRow>, k: PairKey)
    requires UniqueKeys(rows)
    ensures Lookup(rows, k).ManyRows? == false
    ensures Lookup(rows, k).OneRow? <==> HasKey(rows, k)
    ensures Lookup(rows, k).OneRow? ==>
      KeyOf(Lookup(rows, k).row) == k && Lookup(rows, k).row.balance == BalanceOf(rows, k)
  {
    if |rows| == 0 {
      MatchingAbsent(rows, k);
    } else {
      var rest := rows[1..];
      UniqueKeysTail(rows);
      HasKeyCons(rows, k);
      MatchingCons(rows, k);
      if KeyOf(rows[0]) == k {
        MatchingAbsent(rest, k);
        assert Matching(rows, k) == [rows[0]];
      } else {
        LookupUnique(rest, k);
        assert Matching(rows, k) == Matching(rest, k);
      }
    }
  }

  lemma {:induction false} LookupHit(rows: seq<BalanceRow>, k: PairKey)
    requires UniqueKeys(rows) && HasKey(rows, k)
    ensures Lookup(rows, k).OneRow? && KeyOf(Lookup(rows, k).row) == k
    ensures Lookup(rows, k).row.balance == BalanceOf(rows, k)
  {
    LookupUnique(rows, k);
  }

  lemma {:induction false} LookupMiss(rows: seq<BalanceRow>, k: PairKey)
    requires !HasKey(rows, k)
    ensures Lookup(rows, k) == NoRow && BalanceOf(rows, k) == 0
  {
    MatchingAbsent(rows, k);
    BalanceOfAbsent(rows, k);
  }

  /** With unique keys, every row holds its pair's balance. */
  lemma {:induction false} BalanceOfMember(rows: seq<BalanceRow>, b: BalanceRow)
    requires UniqueKeys(rows) && b in rows
    ensures BalanceOf(rows, KeyOf(b)) == b.balance
  {
    if rows[0] != b {
      UniqueKeysTail(rows);
      assert b in rows[1..];
      BalanceOfMember(rows[1..], b);
    }
  }

  /** `.update({ balance: v })` filtered on the pair's key: every row of
      the pair gets balance `v`, every other row is left alone. */
  function SetBalance(rows: seq<BalanceRow>, k: PairKey, v: int): (r: seq<BalanceRow>)
    ensures |r| == |rows|
    ensures forall i :: 0 <= i < |rows| ==> KeyOf(r[i]) == KeyOf(rows[i])
    ensures forall i :: 0 <= i < |rows| ==>
      r[i].balance == (if KeyOf(rows[i]) == k then v else rows[i].balance)
  {
    seq(|rows|, i requires 0 <= i < |rows| => if KeyOf(rows[i]) == k then rows[i].(balance := v) else rows[i])
  }

  lemma {:induction false} SetBalanceEffect(rows: seq<BalanceRow>, k: PairKey, v: int, k': PairKey)
    ensures BalanceOf(SetBalance(rows, k, v), k') ==
      (if k' == k && HasKey(rows, k) then v else BalanceOf(rows, k'))
  {
    if |rows| > 0 {
      SetBalanceEffect(rows[1..], k, v, k');
      var r := SetBalance(rows, k, v);
      assert r[1..] == SetBalance(rows[1..], k, v);
      if KeyOf(rows[0]) != k' && k' == k {
        HasKeyCons(rows, k);
      }
    }
  }

  lemma {:induction false} AppendEffect(rows: seq<BalanceRow>, b: BalanceRow, k': PairKey)
    ensures BalanceOf(rows + [b], k') ==
      (if HasKey(rows, k') then BalanceOf(rows, k') else if KeyOf(b) == k' then b.balance else 0)
  {
    if |rows| == 0 {
      assert rows + [b] == [b];
    } else {
      assert (rows + [b])[1..] == rows[1..] + [b];
      AppendEffect(rows[1..], b, k');
      if KeyOf(rows[0]) != k' {
        HasKeyCons(rows, k');
      }
    }
  }

  /** An `upsert` on the pair's key: the existing rows of the pair are
      overwritten with `v`, or a row holding `v` is added. */
  function Upsert(rows: seq<BalanceRow>, k: PairKey, v: int): (r: seq<BalanceRow>)
    ensures BalanceOf(r, k) == v
    ensures forall k' :: k' != k ==> BalanceOf(r, k') == BalanceOf(rows, k')
    ensures HasKey(r, k)
    ensures UniqueKeys(rows) ==> UniqueKeys(r)
    ensures NonNegative(rows) && v >= 0 ==> NonNegative(r)
    ensures |r| <= |rows| + 1
  {
    if HasKey(rows, k) then
      var r := SetBalance(rows, k, v);
      SetBalanceEffectAll(rows, k, v);
      var i :| 0 <= i < |rows| && KeyOf(rows[i]) == k;
      assert KeyOf(r[i]) == k;
      r
    else
      var b := BalanceRow(k.caller, k.recipient, k.year, v);
      var r := rows + [b];
      AppendEffectAll(rows, b);
      assert KeyOf(r[|rows|]) == k;
      r
  }

  lemma {:induction false} SetBalanceEffectAll(rows: seq<BalanceRow>, k: PairKey, v: int)
    requires HasKey(rows, k)
    ensures forall k' :: BalanceOf(SetBalance(rows, k, v), k') == (if k' == k then v else BalanceOf(rows, k'))
  {
    forall k'
      ensures BalanceOf(SetBalance(rows, k, v), k') == (if k' == k then v else BalanceOf(rows, k'))
    {
      SetBalanceEffect(rows, k, v, k');
    }
  }

  lemma {:induction false} AppendEffectAll(rows: seq<BalanceRow>, b: BalanceRow)
    requires !HasKey(rows, KeyOf(b))
    ensures forall k' :: BalanceOf(rows + [b], k') == (if k' == KeyOf(b) then b.balance else BalanceOf(rows, k'))
  {
    forall k'
      ensures BalanceOf(rows + [b], k') == (if k' == KeyOf(b) then b.balance else BalanceOf(rows, k'))
    {
      AppendEffect(rows, b, k');
      if !HasKey(rows, k') {
        BalanceOfAbsent(rows, k');
      }
    }
  }

  /** Setting a balance keeps every key where it was, so it keeps keys
      unique, and keeps balances non-negative when the new value is. */
  lemma {:induction false} SetBalanceKeeps(rows: seq<BalanceRow>, k: PairKey, v: int)
    ensures UniqueKeys(rows) ==> UniqueKeys(SetBalance(rows, k, v))
    ensures NonNegative(rows) && v >= 0 ==> NonNegative(SetBalance(rows, k, v))
    ensures HasKey(rows, k) ==> HasKey(SetBalance(rows, k, v), k)
  {
    var r := SetBalance(rows, k, v);
    if HasKey(rows, k) {
      var i :| 0 <= i < |rows| && KeyOf(rows[i]) == k;
      assert KeyOf(r[i]) == k;
    }
  }

  /** Which end of a balance row a player sits at. */
  datatype Side = AsCaller | AsRecipient

  function Party(b: BalanceRow, side: Side): UserId {
    match side
    case AsCaller => b.caller
    case AsRecipient => b.recipient
  }

  /** `.reduce((sum, b) => sum + b.balance, 0)`. */
  function SumBalances(rows: seq<BalanceRow>): int {
    if |rows| == 0 then 0 else rows[0].balance + SumBalances(rows[1..])
  }

  lemma {:induction false} SumBalancesNonNegative(rows: seq<BalanceRow>)
    requires NonNegative(rows)
    ensures SumBalances(rows) >= 0
  {
    if |rows| > 0 {
      SumBalancesNonNegative(rows[1..]);
    }
  }

  lemma {:induction false} SumBalancesAppend(a: seq<BalanceRow>, b: seq<BalanceRow>)
    ensures SumBalances(a + b) == SumBalances(a) + SumBalances(b)
  {
    if |a| == 0 {
      assert a + b == b;
    } else {
      assert (a + b)[1..] == a[1..] + b;
      SumBalancesAppend(a[1..], b);
    }
  }

  /** Overwriting the balance of a pair that has a row changes the table's
      total by the difference between the new and the old balance. */
  lemma {:induction false} SumSetBalance(rows: seq<BalanceRow>, k: PairKey, v: int)
    requires UniqueKeys(rows)
    ensures SumBalances(SetBalance(rows, k, v)) ==
      SumBalances(rows) + (if HasKey(rows, k) then v - BalanceOf(rows, k) else 0)
  {
    if |rows| > 0 {
      UniqueKeysTail(rows);
      HasKeyCons(rows, k);
      SumSetBalance(rows[1..], k, v);
      var r := SetBalance(rows, k, v);
      assert r[1..] == SetBalance(rows[1..], k, v);
      if KeyOf(rows[0]) == k {
        SetBalanceAbsent(rows[1..], k, v);
      }
    }
  }

  lemma {:induction false} SetBalanceAbsent(rows: seq<BalanceRow>, k: PairKey, v: int)
    requires !HasKey(rows, k)
    ensures SetBalance(rows, k, v) == rows
  {
    if |rows| > 0 {
      HasKeyCons(rows, k);
      SetBalanceAbsent(rows[1..], k, v);
    }
  }

  /** The rows of `p` on the given side. */
  function PartyRows(rows: seq<BalanceRow>, p: UserId, side: Side): (r: seq<BalanceRow>)
    ensures forall b :: b in r <==> b in rows && Party(b, side) == p
  {
    Filter(rows, (b: BalanceRow) => Party(b, side) == p)
  }

  /** `rows.filter(b => b.<side> === p).reduce(sum of balances)`. */
  function SideTotal(rows: seq<BalanceRow>, p: UserId, side: Side): int {
    SumBalances(PartyRows(rows, p, side))
  }

  lemma {:induction false} SideTotalCons(b: BalanceRow, rows: seq<BalanceRow>, p: UserId, side: Side)
    ensures SideTotal([b] + rows, p, side) ==
      (if Party(b, side) == p then b.balance else 0) + SideTotal(rows, p, side)
  {
    assert ([b] + rows)[1..] == rows;
    var head := if Party(b, side) == p then [b] else [];
    assert PartyRows([b] + rows, p, side) == head + PartyRows(rows, p, side);
    SumBalancesAppend(head, PartyRows(rows, p, side));
  }

  /** `x` counted once for every occurrence of `u` in `players`. */
  function PerOccurrence(players: seq<UserId>, u: UserId, x: int): int {
    if |players| == 0 then 0
    else (if players[0] == u then x else 0) + PerOccurrence(players[1..], u, x)
  }

  lemma {:induction false} PerOccurrenceDistinct(players: seq<UserId>, u: UserId, x: int)
    requires NoDuplicates(players)
    ensures PerOccurrence(players, u, x) == (if u in players then x else 0)
  {
    if |players| > 0 {
      var rest := players[1..];
      assert NoDuplicates(rest) by {
        forall i, j | 0 <= i < j < |rest|
          ensures rest[i] != rest[j]
        {
          assert rest[i] == players[i + 1] && rest[j] == players[j + 1];
        }
      }
      PerOccurrenceDistinct(rest, u, x);
      assert players == [players[0]] + rest;
      if players[0] == u {
        assert u !in rest;
      }
    }
  }

  /** The per-player totals added up over a list of players. */
  function TotalOver(players: seq<UserId>, rows: seq<BalanceRow>, side: Side): int {
    if |players| == 0 then 0
    else SideTotal(rows, players[0], side) + TotalOver(players[1..], rows, side)
  }

  lemma {:induction false} TotalOverEmpty(players: seq<UserId>, side: Side)
    ensures TotalOver(players, [], side) == 0
  {
    if |players| > 0 {
      TotalOverEmpty(players[1..], side);
      assert PartyRows([], players[0], side) == [];
    }
  }

  lemma {:induction false} TotalOverCons(players: seq<UserId>, b: BalanceRow, rows: seq<BalanceRow>, side: Side)
    ensures TotalOver(players, [b] + rows, side) ==
      PerOccurrence(players, Party(b, side), b.balance) + TotalOver(players, rows, side)
  {
    if |players| > 0 {
      TotalOverCons(players[1..], b, rows, side);
      SideTotalCons(b, rows, players[0], side);
    }
  }

  /** When every row's party on `side` is one of a list of distinct
      players, adding up the players' totals counts every row exactly
      once. */
  lemma {:induction false} TotalOverIsSum(players: seq<UserId>, rows: seq<BalanceRow>, side: Side)
    requires NoDuplicates(players)
    requires forall b :: b in rows ==> Party(b, side) in players
    ensures TotalOver(players, rows, side) == SumBalances(rows)
  {
    if |rows| == 0 {
      TotalOverEmpty(players, side);
    } else {
      var b := rows[0];
      assert rows == [b] + rows[1..];
      TotalOverIsSum(players, rows[1..], side);
      TotalOverCons(players, b, rows[1..], side);
      PerOccurrenceDistinct(players, Party(b, side), b.balance);
    }
  }
}
