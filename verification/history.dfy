/** The history page: the years that have scores, the year shown first,
    the standings of a year and the medal beside each place. */
module History {
  import opened Tables
  import opened Seqs

  function ScoreYear(s: ScoreRow): int {
    s.year
  }

  /** `data.map(d => d.year)`. */
  function YearsOf(rows: seq<ScoreRow>): (r: seq<Year>)
    ensures |r| == |rows|
    ensures forall i :: 0 <= i < |rows| ==> r[i] == rows[i].year
  {
    seq(|rows|, i requires 0 <= i < |rows| => rows[i].year)
  }

  predicate HasScoresIn(scores: seq<ScoreRow>, y: Year) {
    exists i :: 0 <= i < |scores| && scores[i].year == y
  }

  /** The page's year picker: the list of years and the selected one. */
  datatype YearsView = YearsView(years: seq<Year>, selected: Year)

  /** `loadAvailableYears`: the years of all score rows, latest first, each
      once; the latest is selected. `loadOk` is whether the query returned
      data; the selection starts at the current calendar year. */
  function LoadAvailableYears(scores: seq<ScoreRow>, loadOk: bool, currentYear: Year): (r: YearsView)
    ensures NoDuplicates(r.years)
    ensures loadOk ==> forall y :: y in r.years <==> HasScoresIn(scores, y)
    ensures !loadOk ==> r.years == []
    ensures |r.years| > 0 ==> r.selected == r.years[0]
    ensures r.years == [] ==> r.selected == currentYear
  {
    if !loadOk then YearsView([], currentYear)
    else
      var years := Dedup(YearsOf(SortDesc(scores, ScoreYear)));
      YearsOfSorted(scores);
      YearsView(years, if |years| > 0 then years[0] else currentYear)
  }

  /** Sorting does not change which years occur. */
  lemma {:induction false} YearsOfSorted(scores: seq<ScoreRow>)
    ensures forall y :: y in YearsOf(SortDesc(scores, ScoreYear)) <==> HasScoresIn(scores, y)
  {
    var sorted := SortDesc(scores, ScoreYear);
    var ys := YearsOf(sorted);
    forall y
      ensures y in ys <==> HasScoresIn(scores, y)
    {
      if y in ys {
        var i :| 0 <= i < |ys| && ys[i] == y;
        assert sorted[i] in multiset(scores);
        var j :| 0 <= j < |scores| && scores[j] == sorted[i];
      }
      if HasScoresIn(scores, y) {
        var j :| 0 <= j < |scores| && scores[j].year == y;
        assert scores[j] in multiset(sorted);
        var i :| 0 <= i < |sorted| && sorted[i] == scores[j];
        assert ys[i] == y;
      }
    }
  }

  /** The list runs from the latest year down, strictly, so the selected
      year is the latest one with scores. */
  lemma {:induction false} YearsDescending(scores: seq<ScoreRow>, loadOk: bool, currentYear: Year)
    ensures var r := LoadAvailableYears(scores, loadOk, currentYear);
      (forall i, j :: 0 <= i < j < |r.years| ==> r.years[i] > r.years[j])
      && (|r.years| > 0 ==> forall y :: HasScoresIn(scores, y) ==> y <= r.selected)
  {
    if loadOk {
      var ys := YearsOf(SortDesc(scores, ScoreYear));
      assert NonIncreasing(ys) by {
        var sorted := SortDesc(scores, ScoreYear);
        assert SortedDesc(sorted, ScoreYear);
        forall i, j | 0 <= i < j < |ys|
          ensures ys[i] >= ys[j]
        {
          assert ys[i] == ScoreYear(sorted[i]) && ys[j] == ScoreYear(sorted[j]);
        }
      }
      DedupStrictlyDecreasing(ys);
      var r := LoadAvailableYears(scores, loadOk, currentYear);
      if |r.years| > 0 {
        forall y | HasScoresIn(scores, y)
          ensures y <= r.selected
        {
          assert y in r.years;
          var k :| 0 <= k < |r.years| && r.years[k] == y;
        }
      }
    }
  }

  /** Negated place, so that sorting by it largest first lists the places
      smallest first. */
  function NegRank(s: ScoreRow): int {
    -s.finalRank
  }

  /** `.eq('year', year)`. */
  function InYear(year: Year): ScoreRow -> bool {
    (x: ScoreRow) => x.year == year
  }

  /** `loadYearData`: the score rows of the year, each as often as it is
      stored, by place. */
  function YearStandings(scores: seq<ScoreRow>, year: Year): (r: seq<ScoreRow>)
    ensures forall x :: x in r <==> x in scores && x.year == year
    ensures multiset(r) == multiset(Filter(scores, InYear(year)))
    ensures multiset(r) <= multiset(scores)
    ensures forall i, j :: 0 <= i < j < |r| ==> r[i].finalRank <= r[j].finalRank
  {
    var f := Filter(scores, InYear(year));
    SortDescMembers(f, NegRank);
    SortDesc(f, NegRank)
  }

  /** `getRankIcon`: gold, silver and bronze medals for the podium and the
      keycap digit four for every other place. */
  function RankIcon(rank: int): string
  {
    if rank == 1 then "\U{1F947}"
    else if rank == 2 then "\U{1F948}"
    else if rank == 3 then "\U{1F949}"
    else "4\U{FE0F}\U{20E3}"
  }

  /** Four distinct icons: one per podium place, one for the rest. */
  lemma {:induction false} RankIconsDistinct(a: int, b: int)
    ensures RankIcon(a) == RankIcon(b) <==> a == b || (a !in {1, 2, 3} && b !in {1, 2, 3})
  {
    assert "4\U{FE0F}\U{20E3}"[0] == '4';
  }
}
