/** The admin page: entering a player's actual results, then scoring every
    player of the year, ranking them and awarding buffalos. The scorer,
    the ranker and the buffalo allocator belong to a library outside this
    model (lib/scoring.ts); they are parameters here, and nothing is
    assumed about what they compute. */
module Scoring {
  import opened Tables
  import opened Seqs
  import opened Text
  import opened Ledger
  import opened Entries

  /** `calculateScore(predictedArtists, predictedSongs, actualArtists, actualSongs)`. */
  type ScoreFn = (seq<string>, seq<string>, seq<string>, seq<string>) -> ScoreFigures

  /** One element of `scoresData`: a player and the figures computed for them. */
  datatype Scored = Scored(user: UserId, figures: ScoreFigures)

  /** `rankPlayers(scoresData)`: the entries, in finishing order. */
  type RankFn = seq<Scored> -> seq<Scored>

  /** One element of what `calculateBuffaloBalances` returns. */
  datatype Allocation = Allocation(caller: UserId, recipient: UserId, balance: int)

  /** `calculateBuffaloBalances(rankedPlayerIds)`. */
  type AllocateFn = seq<UserId> -> seq<Allocation>

  /** The tables the admin page reads and writes. */
  datatype ScoringState = ScoringState(
    results: seq<ResultRow>,
    submissions: seq<Submission>,
    scores: seq<ScoreRow>,
    balances: seq<BalanceRow>)

  function ResultKey(r: ResultRow): EntryKey {
    EntryKey(r.user, r.year)
  }

  function ScoreKey(s: ScoreRow): EntryKey {
    EntryKey(s.user, s.year)
  }

  // ---------------------------------------------------------------------
  // Entering results

  datatype ResultsOutcome = NoUserSelected | ResultsIncomplete | ResultsSaveFailed | ResultsSaved

  /** The first half of `handleSubmitResults`: check the form, then upsert
      the trimmed results of the selected player for the year. */
  function SaveResults(results: seq<ResultRow>, selectedUser: UserId, year: Year,
                       artists: seq<string>, songs: seq<string>, writeOk: bool): (r: (seq<ResultRow>, ResultsOutcome))
    ensures r.1 == NoUserSelected <==> selectedUser == ""
    ensures r.1 == ResultsIncomplete <==> selectedUser != "" && (!AllFilled(artists) || !AllFilled(songs))
    ensures r.1 == ResultsSaved <==> selectedUser != "" && AllFilled(artists) && AllFilled(songs) && writeOk
    ensures r.1 != ResultsSaved ==> r.0 == results
    ensures r.1 == ResultsSaved ==> forall x :: x in r.0 <==>
      x == ResultRow(selectedUser, year, TrimAll(artists), TrimAll(songs)) || (x in results && ResultKey(x) != EntryKey(selectedUser, year))
    ensures KeysUnique(results, ResultKey) ==> KeysUnique(r.0, ResultKey)
  {
    if selectedUser == "" then (results, NoUserSelected)
    else if !AllFilled(artists) || !AllFilled(songs) then (results, ResultsIncomplete)
    else if !writeOk then (results, ResultsSaveFailed)
    else (UpsertBy(results, ResultRow(selectedUser, year, TrimAll(artists), TrimAll(songs)), ResultKey), ResultsSaved)
  }

  /** Stored results are free of surrounding white space and blanks. */
  lemma {:induction false} SavedResultsTrimmed(results: seq<ResultRow>, selectedUser: UserId, year: Year,
                            artists: seq<string>, songs: seq<string>, writeOk: bool)
    ensures var (r, outcome) := SaveResults(results, selectedUser, year, artists, songs, writeOk);
      outcome == ResultsSaved ==>
        var row := ResultRow(selectedUser, year, TrimAll(artists), TrimAll(songs));
        row in r && AllFilled(row.actualArtists) && AllFilled(row.actualSongs)
        && TrimAll(row.actualArtists) == row.actualArtists && TrimAll(row.actualSongs) == row.actualSongs
  {
    if selectedUser != "" && AllFilled(artists) && AllFilled(songs) && writeOk {
      TrimAllStable(artists);
      TrimAllStable(songs);
    }
  }

  // ---------------------------------------------------------------------
  // Joining results to submissions

  predicate HasResult(results: seq<ResultRow>, u: UserId) {
    exists i :: 0 <= i < |results| && results[i].user == u
  }

  predicate HasEntry(entries: seq<Scored>, u: UserId) {
    exists i :: 0 <= i < |entries| && entries[i].user == u
  }

  /** `submissions.find(s => s.user_id === u)`. */
  function SubmissionOf(subs: seq<Submission>, u: UserId): (r: Option<Submission>)
    ensures r.Some? ==> r.value in subs && r.value.user == u
    ensures r.None? <==> forall i :: 0 <= i < |subs| ==> subs[i].user != u
  {
    Find(subs, (s: Submission) => s.user == u)
  }

  /** `e` is what scoring `res` against the player's submission gives. */
  ghost predicate ScoredFrom(e: Scored, res: ResultRow, subs: seq<Submission>, score: ScoreFn) {
    res.user == e.user && SubmissionOf(subs, e.user).Some?
    && var sub := SubmissionOf(subs, e.user).value;
       e.figures == score(sub.artists, sub.songs, res.actualArtists, res.actualSongs)
  }

  /** The loop building `scoresData`: one entry per result whose player has
      a submission, in the order of the results. */
  function ScoreEntries(results: seq<ResultRow>, subs: seq<Submission>, score: ScoreFn): (r: seq<Scored>)
    ensures |r| <= |results|
    ensures forall e :: e in r ==> exists res :: res in results && ScoredFrom(e, res, subs, score)
  {
    if |results| == 0 then []
    else
      var res := results[0];
      var rest := ScoreEntries(results[1..], subs, score);
      match SubmissionOf(subs, res.user)
      case None => rest
      case Some(sub) =>
        var e := Scored(res.user, score(sub.artists, sub.songs, res.actualArtists, res.actualSongs));
        assert ScoredFrom(e, res, subs, score);
        [e] + rest
  }

  lemma {:induction false} HasResultCons(results: seq<ResultRow>, u: UserId)
    requires |results| > 0
    ensures HasResult(results, u) <==> results[0].user == u || HasResult(results[1..], u)
  {
    if HasResult(results, u) && results[0].user != u {
      var i :| 0 <= i < |results| && results[i].user == u;
      assert results[1..][i - 1] == results[i];
    }
    if HasResult(results[1..], u) {
      var i :| 0 <= i < |results[1..]| && results[1..][i].user == u;
      assert results[i + 1] == results[1..][i];
    }
  }

  lemma {:induction false} HasEntryCons(e: Scored, rest: seq<Scored>, u: UserId)
    ensures HasEntry([e] + rest, u) <==> e.user == u || HasEntry(rest, u)
  {
    var r := [e] + rest;
    if HasEntry(r, u) && e.user != u {
      var i :| 0 <= i < |r| && r[i].user == u;
      assert r[i] == rest[i - 1];
    }
    if HasEntry(rest, u) {
      var i :| 0 <= i < |rest| && rest[i].user == u;
      assert r[i + 1] == rest[i];
    }
    if e.user == u {
      assert r[0] == e;
    }
  }

  /** The join: a player gets an entry exactly when they have a result and
      a submission. */
  lemma {:induction false} ScoreEntriesUsers(results: seq<ResultRow>, subs: seq<Submission>, score: ScoreFn, u: UserId)
    ensures HasEntry(ScoreEntries(results, subs, score), u) <==> HasResult(results, u) && SubmissionOf(subs, u).Some?
  {
    if |results| > 0 {
      ScoreEntriesUsers(results[1..], subs, score, u);
      HasResultCons(results, u);
      var res := results[0];
      var rest := ScoreEntries(results[1..], subs, score);
      match SubmissionOf(subs, res.user)
      case None =>
        assert ScoreEntries(results, subs, score) == rest;
      case Some(sub) =>
        var e := Scored(res.user, score(sub.artists, sub.songs, res.actualArtists, res.actualSongs));
        assert ScoreEntries(results, subs, score) == [e] + rest;
        HasEntryCons(e, rest, u);
    }
  }

  // ---------------------------------------------------------------------
  // Ranks

  /** The score rows written for the ranker's output: the entry at index
      `i` finishes `i + 1`-th. */
  function RankRows(ranked: seq<Scored>, year: Year): (r: seq<ScoreRow>)
    ensures |r| == |ranked|
    ensures forall i :: 0 <= i < |r| ==> r[i].user == ranked[i].user && r[i].figures == ranked[i].figures && r[i].year == year
  {
    seq(|ranked|, i requires 0 <= i < |ranked| => ScoreRow(ranked[i].user, year, ranked[i].figures, i + 1))
  }

  /** The places written into a set of score rows. */
  ghost function Places(rows: seq<ScoreRow>): set<int> {
    set x | x in rows :: x.finalRank
  }

  /** The ranks handed out are exactly 1..N, each to one row, in order. */
  lemma {:induction false} RanksContiguous(ranked: seq<Scored>, year: Year)
    ensures var rows := RankRows(ranked, year);
      (forall n :: n in Places(rows) <==> 1 <= n <= |ranked|)
      && forall i, j :: 0 <= i < j < |rows| ==> rows[i].finalRank < rows[j].finalRank
  {
    var rows := RankRows(ranked, year);
    forall n | 1 <= n <= |ranked|
      ensures n in Places(rows)
    {
      assert rows[n - 1].finalRank == n;
    }
  }

  ghost predicate DistinctUsers(ranked: seq<Scored>) {
    forall i, j :: 0 <= i < j < |ranked| ==> ranked[i].user != ranked[j].user
  }

  lemma {:induction false} RankRowsKeysUnique(ranked: seq<Scored>, year: Year)
    requires DistinctUsers(ranked)
    ensures KeysUnique(RankRows(ranked, year), ScoreKey)
  {
  }

  function Users(ranked: seq<Scored>): (r: seq<UserId>)
    ensures |r| == |ranked|
    ensures forall i :: 0 <= i < |r| ==> r[i] == ranked[i].user
  {
    seq(|ranked|, i requires 0 <= i < |ranked| => ranked[i].user)
  }

  // ---------------------------------------------------------------------
  // Buffalo allocation

  function AllocationKey(a: Allocation, year: Year): PairKey {
    PairKey(a.caller, a.recipient, year)
  }

  /** The value the last allocation for `k` sets, if any allocation does. */
  function Allocated(allocs: seq<Allocation>, year: Year, k: PairKey): Option<int> {
    if |allocs| == 0 then None
    else if AllocationKey(allocs[|allocs| - 1], year) == k then Some(allocs[|allocs| - 1].balance)
    else Allocated(allocs[..|allocs| - 1], year, k)
  }

  /** The loop of balance upserts: each allocation overwrites the pair's
      balance for the year (the value is not added to what was there). */
  function ApplyAllocations(balances: seq<BalanceRow>, allocs: seq<Allocation>, year: Year): (r: seq<BalanceRow>)
    ensures forall k :: BalanceOf(r, k) == Allocated(allocs, year, k).GetOr(BalanceOf(balances, k))
    ensures UniqueKeys(balances) ==> UniqueKeys(r)
    ensures NonNegative(balances) && (forall i :: 0 <= i < |allocs| ==> allocs[i].balance >= 0) ==> NonNegative(r)
  {
    if |allocs| == 0 then balances
    else
      var a := allocs[|allocs| - 1];
      var before := ApplyAllocations(balances, allocs[..|allocs| - 1], year);
      Upsert(before, AllocationKey(a, year), a.balance)
  }

  /** With one allocation per pair, each pair ends with exactly its
      allocated balance. */
  lemma {:induction false} AllocationsStored(balances: seq<BalanceRow>, allocs: seq<Allocation>, year: Year, i: nat)
    requires i < |allocs|
    requires forall j :: 0 <= j < |allocs| && j != i ==> AllocationKey(allocs[j], year) != AllocationKey(allocs[i], year)
    ensures BalanceOf(ApplyAllocations(balances, allocs, year), AllocationKey(allocs[i], year)) == allocs[i].balance
  {
    AllocatedAt(allocs, year, i);
  }

  lemma {:induction false} AllocatedAt(allocs: seq<Allocation>, year: Year, i: nat)
    requires i < |allocs|
    requires forall j :: 0 <= j < |allocs| && j != i ==> AllocationKey(allocs[j], year) != AllocationKey(allocs[i], year)
    ensures Allocated(allocs, year, AllocationKey(allocs[i], year)) == Some(allocs[i].balance)
    decreases |allocs|
  {
    if i < |allocs| - 1 {
      var front := allocs[..|allocs| - 1];
      assert forall j :: 0 <= j < |front| ==> front[j] == allocs[j];
      AllocatedAt(front, year, i);
    }
  }

  // ---------------------------------------------------------------------
  // Scoring

  /** The submissions the page loaded: those of the year. */
  function YearSubmissions(subs: seq<Submission>, year: Year): seq<Submission> {
    Filter(subs, (s: Submission) => s.year == year)
  }

  function YearResults(results: seq<ResultRow>, year: Year): seq<ResultRow> {
    Filter(results, (x: ResultRow) => x.year == year)
  }

  /** The entries ranked for the year. */
  function Ranked(st: ScoringState, year: Year, score: ScoreFn, rank: RankFn): seq<Scored> {
    rank(ScoreEntries(YearResults(st.results, year), YearSubmissions(st.submissions, year), score))
  }

  /** `calculateAllScores`: score every result of the year that has a
      submission, write the ranked score rows, then write the buffalo
      allocation for the ranking. `resultsOk` is whether the results query
      returned data. */
  function CalculateAllScores(st: ScoringState, year: Year, resultsOk: bool,
                              score: ScoreFn, rank: RankFn, allocate: AllocateFn): (r: ScoringState)
    ensures r.results == st.results && r.submissions == st.submissions
    ensures !resultsOk || |YearResults(st.results, year)| == 0 ==> r == st
    ensures KeysUnique(st.scores, ScoreKey) ==> KeysUnique(r.scores, ScoreKey)
    ensures UniqueKeys(st.balances) ==> UniqueKeys(r.balances)
    ensures forall x :: x in st.scores && x.year != year ==> x in r.scores
    ensures forall x :: x in r.scores ==> x in st.scores || x.year == year
    ensures forall k: PairKey :: k.year != year ==> BalanceOf(r.balances, k) == BalanceOf(st.balances, k)
  {
    if !resultsOk || |YearResults(st.results, year)| == 0 then st
    else
      var ranked := Ranked(st, year, score, rank);
      var rows := RankRows(ranked, year);
      var allocs := allocate(Users(ranked));
      var balances := ApplyAllocations(st.balances, allocs, year);
      assert forall k: PairKey :: k.year != year ==> Allocated(allocs, year, k).None? by {
        forall k: PairKey | k.year != year
          ensures Allocated(allocs, year, k).None?
        {
          NotAllocatedOtherYear(allocs, year, k);
        }
      }
      st.(scores := UpsertAll(st.scores, rows, ScoreKey), balances := balances)
  }

  lemma {:induction false} NotAllocatedOtherYear(allocs: seq<Allocation>, year: Year, k: PairKey)
    requires k.year != year
    ensures Allocated(allocs, year, k).None?
    decreases |allocs|
  {
    if |allocs| > 0 {
      NotAllocatedOtherYear(allocs[..|allocs| - 1], year, k);
    }
  }

  /** After scoring, each ranked player (when the ranker lists each once)
      holds a score row for the year with their figures and their place. */
  lemma {:induction false} RankedPlayersStored(st: ScoringState, year: Year, resultsOk: bool,
                            score: ScoreFn, rank: RankFn, allocate: AllocateFn)
    requires resultsOk && |YearResults(st.results, year)| > 0
    requires DistinctUsers(Ranked(st, year, score, rank))
    ensures var ranked := Ranked(st, year, score, rank);
      var r := CalculateAllScores(st, year, resultsOk, score, rank, allocate);
      forall i :: 0 <= i < |ranked| ==> ScoreRow(ranked[i].user, year, ranked[i].figures, i + 1) in r.scores
  {
    var ranked := Ranked(st, year, score, rank);
    var rows := RankRows(ranked, year);
    RankRowsKeysUnique(ranked, year);
    UpsertAllStoresRows(st.scores, rows, ScoreKey);
    assert forall i :: 0 <= i < |ranked| ==> rows[i] == ScoreRow(ranked[i].user, year, ranked[i].figures, i + 1);
  }

  /** A player is scored exactly when they have both a result and a
      submission for the year. */
  lemma {:induction false} ScoredIff(st: ScoringState, year: Year, score: ScoreFn, u: UserId)
    ensures var entries := ScoreEntries(YearResults(st.results, year), YearSubmissions(st.submissions, year), score);
      HasEntry(entries, u) <==>
        (exists i :: 0 <= i < |st.results| && st.results[i].user == u && st.results[i].year == year)
        && (exists j :: 0 <= j < |st.submissions| && st.submissions[j].user == u && st.submissions[j].year == year)
  {
    ScoreEntriesUsers(YearResults(st.results, year), YearSubmissions(st.submissions, year), score, u);
    YearResultsHas(st.results, year, u);
    YearSubmissionsHas(st.submissions, year, u);
  }

  lemma {:induction false} YearResultsHas(results: seq<ResultRow>, year: Year, u: UserId)
    ensures HasResult(YearResults(results, year), u) <==>
      exists i :: 0 <= i < |results| && results[i].user == u && results[i].year == year
  {
    var yr := YearResults(results, year);
    if exists i :: 0 <= i < |results| && results[i].user == u && results[i].year == year {
      var i :| 0 <= i < |results| && results[i].user == u && results[i].year == year;
      assert results[i] in yr;
      var k :| 0 <= k < |yr| && yr[k] == results[i];
    }
    if HasResult(yr, u) {
      var k :| 0 <= k < |yr| && yr[k].user == u;
      assert yr[k] in yr;
    }
  }

  lemma {:induction false} YearSubmissionsHas(subs: seq<Submission>, year: Year, u: UserId)
    ensures SubmissionOf(YearSubmissions(subs, year), u).Some? <==>
      exists j :: 0 <= j < |subs| && subs[j].user == u && subs[j].year == year
  {
    var ys := YearSubmissions(subs, year);
    if exists j :: 0 <= j < |subs| && subs[j].user == u && subs[j].year == year {
      var j :| 0 <= j < |subs| && subs[j].user == u && subs[j].year == year;
      assert subs[j] in ys;
    }
    if SubmissionOf(ys, u).Some? {
      var x := SubmissionOf(ys, u).value;
      assert x in ys;
      var j :| 0 <= j < |subs| && subs[j] == x;
    }
  }

  /** With one allocation per pair, every allocated pair holds exactly its
      allocated balance for the year after scoring. */
  lemma {:induction false} AllocationsAwarded(st: ScoringState, year: Year, resultsOk: bool,
                           score: ScoreFn, rank: RankFn, allocate: AllocateFn, i: nat)
    requires resultsOk && |YearResults(st.results, year)| > 0
    requires var allocs := allocate(Users(Ranked(st, year, score, rank)));
      i < |allocs| && forall j :: 0 <= j < |allocs| && j != i ==> AllocationKey(allocs[j], year) != AllocationKey(allocs[i], year)
    ensures var allocs := allocate(Users(Ranked(st, year, score, rank)));
      var r := CalculateAllScores(st, year, resultsOk, score, rank, allocate);
      BalanceOf(r.balances, AllocationKey(allocs[i], year)) == allocs[i].balance
  {
    AllocationsStored(st.balances, allocate(Users(Ranked(st, year, score, rank))), year, i);
  }

  // ---------------------------------------------------------------------
  // The handler

  /** `handleSubmitResults`: save the results, and once saved, rescore the
      year. */
  function SubmitResults(st: ScoringState, selectedUser: UserId, year: Year,
                         artists: seq<string>, songs: seq<string>, writeOk: bool, resultsOk: bool,
                         score: ScoreFn, rank: RankFn, allocate: AllocateFn): (r: (ScoringState, ResultsOutcome))
    ensures r.1 == NoUserSelected <==> selectedUser == ""
    ensures r.1 == ResultsIncomplete <==> selectedUser != "" && (!AllFilled(artists) || !AllFilled(songs))
    ensures r.1 == ResultsSaveFailed <==> selectedUser != "" && AllFilled(artists) && AllFilled(songs) && !writeOk
    ensures r.1 == ResultsSaved <==> selectedUser != "" && AllFilled(artists) && AllFilled(songs) && writeOk
    ensures r.1 != ResultsSaved ==> r.0 == st
    ensures r.1 == ResultsSaved ==> ResultRow(selectedUser, year, TrimAll(artists), TrimAll(songs)) in r.0.results
    ensures r.1 == ResultsSaved ==>
      r.0 == CalculateAllScores(st.(results := SaveResults(st.results, selectedUser, year, artists, songs, writeOk).0),
                                year, resultsOk, score, rank, allocate)
    ensures r.0.submissions == st.submissions
  {
    var (results, outcome) := SaveResults(st.results, selectedUser, year, artists, songs, writeOk);
    if outcome != ResultsSaved then (st, outcome)
    else
      var saved := st.(results := results);
      assert YearResults(results, year) != [] by {
        var row := ResultRow(selectedUser, year, TrimAll(artists), TrimAll(songs));
        assert row in YearResults(results, year);
      }
      (CalculateAllScores(saved, year, resultsOk, score, rank, allocate), outcome)
  }

  /** The results table once the form is saved. */
  function Saved(st: ScoringState, selectedUser: UserId, year: Year,
                 artists: seq<string>, songs: seq<string>): ScoringState {
    st.(results := SaveResults(st.results, selectedUser, year, artists, songs, true).0)
  }

  /** A saved form always leaves a result for the year, so scoring runs. */
  lemma {:induction false} SavedHasYearResult(st: ScoringState, selectedUser: UserId, year: Year,
                            artists: seq<string>, songs: seq<string>)
    requires selectedUser != "" && AllFilled(artists) && AllFilled(songs)
    ensures |YearResults(Saved(st, selectedUser, year, artists, songs).results, year)| > 0
  {
    var row := ResultRow(selectedUser, year, TrimAll(artists), TrimAll(songs));
    assert row in YearResults(Saved(st, selectedUser, year, artists, songs).results, year);
  }

  /** A successful submission rescores the year: when the results query
      answers, each ranked player, listed once, holds a score row for the
      year with their figures and place i + 1. */
  lemma {:induction false} SubmitRanksPlayers(st: ScoringState, selectedUser: UserId, year: Year,
                            artists: seq<string>, songs: seq<string>, resultsOk: bool,
                            score: ScoreFn, rank: RankFn, allocate: AllocateFn)
    requires selectedUser != "" && AllFilled(artists) && AllFilled(songs) && resultsOk
    requires DistinctUsers(Ranked(Saved(st, selectedUser, year, artists, songs), year, score, rank))
    ensures var ranked := Ranked(Saved(st, selectedUser, year, artists, songs), year, score, rank);
      var r := SubmitResults(st, selectedUser, year, artists, songs, true, resultsOk, score, rank, allocate);
      r.1 == ResultsSaved &&
      forall i :: 0 <= i < |ranked| ==> ScoreRow(ranked[i].user, year, ranked[i].figures, i + 1) in r.0.scores
  {
    var saved := Saved(st, selectedUser, year, artists, songs);
    SavedHasYearResult(st, selectedUser, year, artists, songs);
    RankedPlayersStored(saved, year, resultsOk, score, rank, allocate);
  }

  /** A successful submission awards the allocation: with one allocation
      per pair, each allocated pair ends with exactly its value. */
  lemma {:induction false} SubmitAwardsBuffalos(st: ScoringState, selectedUser: UserId, year: Year,
                            artists: seq<string>, songs: seq<string>, resultsOk: bool,
                            score: ScoreFn, rank: RankFn, allocate: AllocateFn, i: nat)
    requires selectedUser != "" && AllFilled(artists) && AllFilled(songs) && resultsOk
    requires var allocs := allocate(Users(Ranked(Saved(st, selectedUser, year, artists, songs), year, score, rank)));
      i < |allocs| && forall j :: 0 <= j < |allocs| && j != i ==> AllocationKey(allocs[j], year) != AllocationKey(allocs[i], year)
    ensures var allocs := allocate(Users(Ranked(Saved(st, selectedUser, year, artists, songs), year, score, rank)));
      var r := SubmitResults(st, selectedUser, year, artists, songs, true, resultsOk, score, rank, allocate);
      r.1 == ResultsSaved && BalanceOf(r.0.balances, AllocationKey(allocs[i], year)) == allocs[i].balance
  {
    var saved := Saved(st, selectedUser, year, artists, songs);
    SavedHasYearResult(st, selectedUser, year, artists, songs);
    AllocationsAwarded(saved, year, resultsOk, score, rank, allocate, i);
  }
}
