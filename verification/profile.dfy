/** The profile page: a player's career statistics and the medal shown
    for their best finish. */
module Profiles {
  import opened Tables
  import opened Seqs
  import opened Encoding
  import History

  /** The career panel's figures. */
  datatype Stats = Stats(totalWins: nat, totalCompetitions: nat, bestRank: int)

  /** The figures shown before anything loads. */
  const InitialStats := Stats(0, 0, 0)

  /** `s.final_rank === 1`: a first place. */
  predicate IsWin(s: ScoreRow) {
    s.finalRank == 1
  }

  /** `data.filter(s => s.final_rank === 1).length`: the number of rows
      placed first. */
  function CountWins(rows: seq<ScoreRow>): (n: nat)
    ensures n == |set i | 0 <= i < |rows| && rows[i].finalRank == 1|
    ensures n <= |rows|
    ensures n == 0 <==> forall i :: 0 <= i < |rows| ==> rows[i].finalRank != 1
    ensures n == |rows| <==> forall i :: 0 <= i < |rows| ==> rows[i].finalRank == 1
  {
    WinsCounted(rows);
    |Filter(rows, IsWin)|
  }

  lemma {:induction false} WinsCounted(rows: seq<ScoreRow>)
    ensures var n := |Filter(rows, IsWin)|;
      n == |set i | 0 <= i < |rows| && rows[i].finalRank == 1| &&
      (n == 0 <==> forall i :: 0 <= i < |rows| ==> rows[i].finalRank != 1) &&
      (n == |rows| <==> forall i :: 0 <= i < |rows| ==> rows[i].finalRank == 1)
  {
    var f := Filter(rows, IsWin);
    FilterCount(rows, IsWin);
    WinPositions(rows);
    if exists i :: 0 <= i < |rows| && rows[i].finalRank == 1 {
      var i :| 0 <= i < |rows| && rows[i].finalRank == 1;
      assert rows[i] in f;
    }
    if |f| > 0 {
      assert f[0] in f;
    }
    if forall i :: 0 <= i < |rows| ==> rows[i].finalRank == 1 {
      FilterAll(rows, IsWin);
    } else {
      var k :| 0 <= k < |rows| && rows[k].finalRank != 1;
      FilterShorter(rows, IsWin, k);
    }
  }

  /** `Math.min(...data.map(s => s.final_rank))` of a non-empty list. */
  function MinRank(rows: seq<ScoreRow>): (m: int)
    requires |rows| > 0
    ensures forall i :: 0 <= i < |rows| ==> m <= rows[i].finalRank
    ensures exists i :: 0 <= i < |rows| && rows[i].finalRank == m
  {
    if |rows| == 1 then rows[0].finalRank
    else
      var m := MinRank(rows[1..]);
      assert forall i :: 1 <= i < |rows| ==> rows[1..][i - 1] == rows[i];
      if rows[0].finalRank <= m then rows[0].finalRank else m
  }

  /** `data.length > 0 ? Math.min(...) : 0`. */
  function BestRank(rows: seq<ScoreRow>): (b: int)
    ensures |rows| == 0 ==> b == 0
    ensures |rows| > 0 ==>
      (forall i :: 0 <= i < |rows| ==> b <= rows[i].finalRank) && exists i :: 0 <= i < |rows| && rows[i].finalRank == b
  {
    if |rows| > 0 then MinRank(rows) else 0
  }

  /** The player's score rows, one per competition entered. */
  function MyScores(scores: seq<ScoreRow>, me: UserId): (r: seq<ScoreRow>)
    ensures forall x :: x in r <==> x in scores && x.user == me
  {
    Filter(scores, Mine(me))
  }

  /** `.eq('user_id', me)`. */
  function Mine(me: UserId): ScoreRow -> bool {
    (s: ScoreRow) => s.user == me
  }

  /** The player's row is a first place. */
  function MyWin(me: UserId): ScoreRow -> bool {
    (s: ScoreRow) => s.user == me && s.finalRank == 1
  }

  /** The figures count positions of the score table: the player's rows,
      and those of them placed first. */
  lemma {:induction false} StatsCounted(scores: seq<ScoreRow>, me: UserId)
    ensures |MyScores(scores, me)| == |set i | 0 <= i < |scores| && scores[i].user == me|
    ensures CountWins(MyScores(scores, me)) ==
      |set i | 0 <= i < |scores| && scores[i].user == me && scores[i].finalRank == 1|
  {
    var mine := MyScores(scores, me);
    FilterCount(scores, Mine(me));
    MinePositions(scores, me);
    FilterFilter(scores, Mine(me), IsWin, MyWin(me));
    FilterCount(scores, MyWin(me));
    MyWinPositions(scores, me);
    assert CountWins(mine) == |Filter(mine, IsWin)|;
  }

  lemma {:induction false} MinePositions(scores: seq<ScoreRow>, me: UserId)
    ensures Positions(scores, Mine(me)) == set i | 0 <= i < |scores| && scores[i].user == me
  {
  }

  lemma {:induction false} MyWinPositions(scores: seq<ScoreRow>, me: UserId)
    ensures Positions(scores, MyWin(me)) ==
      set i | 0 <= i < |scores| && scores[i].user == me && scores[i].finalRank == 1
  {
  }

  lemma {:induction false} WinPositions(rows: seq<ScoreRow>)
    ensures Positions(rows, IsWin) == set i | 0 <= i < |rows| && rows[i].finalRank == 1
  {
  }

  /** `loadStats`: wins, competitions and best place over the player's
      score rows; when the query returns no data the figures stay as they
      were. */
  function LoadStats(scores: seq<ScoreRow>, me: UserId, loadOk: bool, shown: Stats): (r: Stats)
    ensures !loadOk ==> r == shown
    ensures loadOk ==> r.totalWins <= r.totalCompetitions
    ensures loadOk ==> r.totalCompetitions == |set i | 0 <= i < |scores| && scores[i].user == me|
    ensures loadOk ==>
      r.totalWins == |set i | 0 <= i < |scores| && scores[i].user == me && scores[i].finalRank == 1|
    ensures loadOk ==> (r.totalCompetitions == 0 <==> forall i :: 0 <= i < |scores| ==> scores[i].user != me)
    ensures loadOk ==> (r.totalWins == 0 <==> forall x :: x in scores && x.user == me ==> x.finalRank != 1)
    ensures loadOk && r.totalCompetitions > 0 ==>
      (forall x :: x in scores && x.user == me ==> r.bestRank <= x.finalRank)
      && exists x :: x in scores && x.user == me && x.finalRank == r.bestRank
    ensures loadOk && r.totalCompetitions == 0 ==> r.bestRank == 0
  {
    if !loadOk then shown
    else
      FreshCounts(scores, me);
      FreshZeros(scores, me);
      FreshBest(scores, me);
      FreshStats(scores, me)
  }

  /** The figures a successful `loadStats` computes. */
  function FreshStats(scores: seq<ScoreRow>, me: UserId): Stats {
    var mine := MyScores(scores, me);
    Stats(CountWins(mine), |mine|, BestRank(mine))
  }

  lemma {:induction false} FreshCounts(scores: seq<ScoreRow>, me: UserId)
    ensures var r := FreshStats(scores, me);
      r.totalWins <= r.totalCompetitions &&
      r.totalCompetitions == |set i | 0 <= i < |scores| && scores[i].user == me| &&
      r.totalWins == |set i | 0 <= i < |scores| && scores[i].user == me && scores[i].finalRank == 1|
  {
    StatsCounted(scores, me);
  }

  lemma {:induction false} FreshZeros(scores: seq<ScoreRow>, me: UserId)
    ensures var r := FreshStats(scores, me);
      (r.totalCompetitions == 0 <==> forall i :: 0 <= i < |scores| ==> scores[i].user != me) &&
      (r.totalWins == 0 <==> forall x :: x in scores && x.user == me ==> x.finalRank != 1)
  {
    var mine := MyScores(scores, me);
    NoneMine(scores, me, mine);
    NoWins(scores, me, mine);
  }

  lemma {:induction false} NoneMine(scores: seq<ScoreRow>, me: UserId, mine: seq<ScoreRow>)
    requires mine == MyScores(scores, me)
    ensures |mine| == 0 <==> forall i :: 0 <= i < |scores| ==> scores[i].user != me
  {
    if exists i :: 0 <= i < |scores| && scores[i].user == me {
      var i :| 0 <= i < |scores| && scores[i].user == me;
      assert scores[i] in mine;
    }
    if |mine| > 0 {
      assert mine[0] in scores;
    }
  }

  lemma {:induction false} NoWins(scores: seq<ScoreRow>, me: UserId, mine: seq<ScoreRow>)
    requires mine == MyScores(scores, me)
    ensures CountWins(mine) == 0 <==> forall x :: x in scores && x.user == me ==> x.finalRank != 1
  {
    if CountWins(mine) == 0 {
      forall x | x in scores && x.user == me
        ensures x.finalRank != 1
      {
        assert x in mine;
        var i :| 0 <= i < |mine| && mine[i] == x;
      }
    } else {
      var i :| 0 <= i < |mine| && mine[i].finalRank == 1;
      assert mine[i] in mine;
    }
  }

  lemma {:induction false} FreshBest(scores: seq<ScoreRow>, me: UserId)
    ensures var r := FreshStats(scores, me);
      (r.totalCompetitions > 0 ==>
        (forall x :: x in scores && x.user == me ==> r.bestRank <= x.finalRank)
        && exists x :: x in scores && x.user == me && x.finalRank == r.bestRank) &&
      (r.totalCompetitions == 0 ==> r.bestRank == 0)
  {
    var mine := MyScores(scores, me);
    assert forall x :: x in mine <==> exists i :: 0 <= i < |mine| && mine[i] == x;
  }

  /** Every stored place is at least first. */
  ghost predicate PlacesPositive(scores: seq<ScoreRow>) {
    forall i :: 0 <= i < |scores| ==> scores[i].finalRank >= 1
  }

  /** `stats.bestRank > 0 ? getRankEmoji(stats.bestRank) : '-'`, with the
      corrected medal of `RankEmoji`. The page as written shows
      `RankEmojiAsWritten` instead; that string is never `-` either, so
      `StatsAgree` holds for the page as written too
      (`BestFinishAsWrittenAgrees`). */
  function BestFinish(stats: Stats): string {
    if stats.bestRank > 0 then RankEmoji(stats.bestRank) else "-"
  }

  /** The Best Finish panel as the file has it. */
  function BestFinishAsWritten(stats: Stats): string {
    if stats.bestRank > 0 then RankEmojiAsWritten(stats.bestRank) else "-"
  }

  /** The page as written shows `-` exactly when the corrected page does. */
  lemma {:induction false} BestFinishAsWrittenAgrees(stats: Stats)
    ensures BestFinishAsWritten(stats) == "-" <==> BestFinish(stats) == "-"
  {
    if stats.bestRank > 0 {
      var r := stats.bestRank;
      assert RankEmojiAsWritten(r)[0] != '-';
      assert RankEmoji(r)[0] != '-';
    }
  }

  /** `stats.totalCompetitions > 0`: whether the win-rate panel shows. */
  predicate WinRateShown(stats: Stats) {
    stats.totalCompetitions > 0
  }

  /** With places counted from one, a player who has won has a best finish
      of first and only such a player does; the best finish is a dash
      exactly when the win-rate panel is hidden. */
  lemma {:induction false} StatsAgree(scores: seq<ScoreRow>, me: UserId)
    requires PlacesPositive(scores)
    ensures var r := LoadStats(scores, me, true, InitialStats);
      (r.totalWins > 0 <==> r.bestRank == 1)
      && (BestFinish(r) == "-" <==> !WinRateShown(r))
  {
    var r := LoadStats(scores, me, true, InitialStats);
    WonIffFirst(scores, me, r);
    DashIffHidden(r);
  }

  lemma {:induction false} WonIffFirst(scores: seq<ScoreRow>, me: UserId, r: Stats)
    requires PlacesPositive(scores) && r == LoadStats(scores, me, true, InitialStats)
    ensures r.totalWins > 0 <==> r.bestRank == 1
    ensures r.totalCompetitions > 0 <==> r.bestRank > 0
  {
    if r.totalCompetitions > 0 {
      var x :| x in scores && x.user == me && x.finalRank == r.bestRank;
      assert r.bestRank >= 1;
      if r.totalWins > 0 {
        var w :| w in scores && w.user == me && w.finalRank == 1;
        assert r.bestRank <= 1;
      }
    }
  }

  lemma {:induction false} DashIffHidden(r: Stats)
    requires r.totalCompetitions > 0 <==> r.bestRank > 0
    ensures BestFinish(r) == "-" <==> !WinRateShown(r)
  {
    if r.bestRank > 0 {
      assert History.RankIcon(r.bestRank)[0] != '-';
    }
  }

  /** `getRankEmoji` as the file has it: each medal appears as the
      characters its UTF-8 bytes stand for in Mac OS Roman. */
  function RankEmojiAsWritten(rank: int): string {
    if rank == 1 then "\U{F8FF}\U{00FC}\U{2022}\U{00E1}"
    else if rank == 2 then "\U{F8FF}\U{00FC}\U{2022}\U{00E0}"
    else if rank == 3 then "\U{F8FF}\U{00FC}\U{2022}\U{00E2}"
    else "4\U{00D4}\U{220F}\U{00E8}\U{201A}\U{00C9}\U{00A3}"
  }

  /** What the profile page shows for a place is the history page's icon
      for it, misread: UTF-8 bytes decoded as Mac OS Roman. It is never the
      icon itself. */
  lemma {:induction false} RankEmojiMisdecoded(rank: int)
    ensures RankEmojiAsWritten(rank) == MacRoman(Utf8(History.RankIcon(rank)))
    ensures RankEmojiAsWritten(rank) != History.RankIcon(rank)
  {
    if rank == 1 {
      MedalMisread("\U{1F947}", 0x87, "\U{F8FF}\U{00FC}\U{2022}\U{00E1}");
    } else if rank == 2 {
      MedalMisread("\U{1F948}", 0x88, "\U{F8FF}\U{00FC}\U{2022}\U{00E0}");
    } else if rank == 3 {
      MedalMisread("\U{1F949}", 0x89, "\U{F8FF}\U{00FC}\U{2022}\U{00E2}");
    } else {
      KeycapMisread();
    }
  }

  /** A medal is four UTF-8 bytes, F0 9F A5 then 87, 88 or 89, read as
      four characters. */
  lemma {:induction false} MedalMisread(medal: string, last: Byte, shown: string)
    requires medal == "\U{1F947}" || medal == "\U{1F948}" || medal == "\U{1F949}"
    requires last == 0x87 + (medal[0] as int - 0x1F947)
    requires shown == "\U{F8FF}\U{00FC}\U{2022}" + [MacRomanChar(last)]
    ensures MacRoman(Utf8(medal)) == shown && shown != medal
  {
    MedalBytes(medal, last);
    var bs := Utf8(medal);
    assert MacRomanChar(bs[0]) == shown[0] && MacRomanChar(bs[1]) == shown[1];
    assert MacRomanChar(bs[2]) == shown[2] && MacRomanChar(bs[3]) == shown[3];
    MacRomanIs(bs, shown);
  }

  /** The UTF-8 bytes of a medal. */
  lemma {:induction false} MedalBytes(medal: string, last: Byte)
    requires medal == "\U{1F947}" || medal == "\U{1F948}" || medal == "\U{1F949}"
    requires last == 0x87 + (medal[0] as int - 0x1F947)
    ensures Utf8(medal) == [0xF0, 0x9F, 0xA5, last]
  {
    var cp := medal[0] as int;
    assert cp / 262144 == 0 && (cp / 4096) % 64 == 31 && (cp / 64) % 64 == 37 by {
      assert 0x1F947 <= cp <= 0x1F949;
      assert cp / 64 == 2021;
      assert cp / 4096 == 31;
    }
    assert cp % 64 == last - 0x80;
    assert Utf8(medal) == Utf8Char(medal[0]) + Utf8([]);
  }

  /** The keycap four is the digit, U+FE0F and U+20E3: seven bytes. */
  lemma {:induction false} KeycapMisread()
    ensures MacRoman(Utf8("4\U{FE0F}\U{20E3}")) == "4\U{00D4}\U{220F}\U{00E8}\U{201A}\U{00C9}\U{00A3}"
  {
    var s := "4\U{FE0F}\U{20E3}";
    assert Utf8(s) == Utf8Char(s[0]) + Utf8(s[1..]);
    assert Utf8(s[1..]) == Utf8Char(s[1]) + Utf8(s[2..]);
    assert Utf8(s[2..]) == Utf8Char(s[2]) + Utf8([]);
    var bs := Utf8(s);
    assert bs == [0x34, 0xEF, 0xB8, 0x8F, 0xE2, 0x83, 0xA3];
    var cs := "4\U{00D4}\U{220F}\U{00E8}\U{201A}\U{00C9}\U{00A3}";
    assert MacRomanChar(bs[0]) == cs[0] && MacRomanChar(bs[1]) == cs[1];
    assert MacRomanChar(bs[2]) == cs[2] && MacRomanChar(bs[3]) == cs[3];
    assert MacRomanChar(bs[4]) == cs[4] && MacRomanChar(bs[5]) == cs[5] && MacRomanChar(bs[6]) == cs[6];
    MacRomanIs(bs, cs);
  }

  /** `getRankEmoji` with the medals it evidently means: the history
      page's icons. */
  function RankEmoji(rank: int): string
  {
    History.RankIcon(rank)
  }

  /** The corrected profile medal matches the history page and tells the
      podium places and the rest apart. */
  lemma {:induction false} RankEmojiAgrees(a: int, b: int)
    ensures RankEmoji(a) == History.RankIcon(a)
    ensures RankEmoji(a) == RankEmoji(b) <==> a == b || (a !in {1, 2, 3} && b !in {1, 2, 3})
  {
    History.RankIconsDistinct(a, b);
  }
}
