/** Prediction entries: the five-artist, five-song forms of the submit page
    (a player's predictions) and the admin page (a player's actual
    results) share one validation rule, and the submit page keeps one
    submission per player and year. */
module Entries {
  import opened Tables
  import opened Seqs
  import opened Text

  /** `!fields.some(f => !f.trim())`: no field is blank. */
  predicate AllFilled(fields: seq<string>) {
    forall i :: 0 <= i < |fields| ==> !IsBlank(fields[i])
  }

  /** `fields.map(f => f.trim())`. */
  function TrimAll(fields: seq<string>): (r: seq<string>)
    ensures |r| == |fields|
    ensures forall i :: 0 <= i < |fields| ==> r[i] == Trim(fields[i])
  {
    seq(|fields|, i requires 0 <= i < |fields| => Trim(fields[i]))
  }

  /** An accepted form is stored without surrounding white space and with
      no empty entry. */
  lemma {:induction false} FilledTrimmed(fields: seq<string>)
    requires AllFilled(fields)
    ensures var r := TrimAll(fields);
      forall i :: 0 <= i < |r| ==> r[i] != "" && !IsWhitespace(r[i][0]) && !IsWhitespace(r[i][|r[i]| - 1])
  {
  }

  /** Stored values pass the form check again and store unchanged: saving
      a pre-filled form without edits writes what was already there. */
  lemma {:induction false} TrimAllStable(fields: seq<string>)
    requires AllFilled(fields)
    ensures AllFilled(TrimAll(fields))
    ensures TrimAll(TrimAll(fields)) == TrimAll(fields)
  {
    var r := TrimAll(fields);
    forall i | 0 <= i < |r|
      ensures Trim(r[i]) == r[i] && r[i] != ""
    {
      TrimIdempotent(fields[i]);
    }
  }

  /** The empty form: five blank artists and five blank songs. */
  const BlankForm: seq<string> := ["", "", "", "", ""]

  /** The key one submission per player and year is kept under. */
  datatype EntryKey = EntryKey(user: UserId, year: Year)

  function SubmissionKey(s: Submission): EntryKey {
    EntryKey(s.user, s.year)
  }

  ghost predicate OnePerPlayerYear(subs: seq<Submission>) {
    KeysUnique(subs, SubmissionKey)
  }

  ghost predicate IdsUnique(subs: seq<Submission>) {
    forall i, j :: 0 <= i < j < |subs| ==> subs[i].id != subs[j].id
  }

  /** `loadSubmission`: the player's submission for the year, if exactly
      one is stored. */
  function LoadSubmission(subs: seq<Submission>, me: UserId, year: Year): (r: Option<Submission>)
    ensures r.Some? ==> r.value in subs && r.value.user == me && r.value.year == year
  {
    var m := Filter(subs, (s: Submission) => s.user == me && s.year == year);
    var r := MaybeSingle(m).Data();
    assert r.Some? ==> r.value == m[0] && m[0] in m;
    r
  }

  lemma {:induction false} LoadSubmissionFinds(subs: seq<Submission>, me: UserId, year: Year)
    requires OnePerPlayerYear(subs)
    ensures LoadSubmission(subs, me, year).Some? <==> exists i :: 0 <= i < |subs| && SubmissionKey(subs[i]) == EntryKey(me, year)
  {
    FilterKeyAtMostOne(subs, SubmissionKey, EntryKey(me, year), (s: Submission) => s.user == me && s.year == year);
  }

  /** The form's contents after loading: the stored submission's, or the
      blank form. */
  function Prefill(loaded: Option<Submission>): (r: (seq<string>, seq<string>))
    ensures loaded.Some? ==> r == (loaded.value.artists, loaded.value.songs)
    ensures loaded.None? ==> r.0 == BlankForm && r.1 == BlankForm && !AllFilled(r.0)
  {
    match loaded
    case Some(s) => (s.artists, s.songs)
    case None =>
      assert IsBlank(BlankForm[0]);
      (BlankForm, BlankForm)
  }

  /** `.update(payload).eq('id', id)`. */
  function Rewrite(subs: seq<Submission>, id: nat, me: UserId, year: Year,
                   artists: seq<string>, songs: seq<string>): (r: seq<Submission>)
    ensures |r| == |subs|
    ensures forall i :: 0 <= i < |subs| ==>
      r[i] == if subs[i].id == id then Submission(id, me, year, artists, songs) else subs[i]
  {
    if |subs| == 0 then []
    else
      [if subs[0].id == id then Submission(id, me, year, artists, songs) else subs[0]]
      + Rewrite(subs[1..], id, me, year, artists, songs)
  }

  /** Where the submit page's `handleSubmit` stopped; `Updated` and `Saved`
      are the two success messages. */
  datatype SaveOutcome = Incomplete | SaveFailed | Updated | Saved

  /** The submit page's `handleSubmit`: refuse a form with a blank field;
      otherwise store the trimmed entries under the player and year,
      rewriting the loaded submission by its id or inserting a new one.
      `writeOk` says whether the write succeeds. */
  function SubmitEntry(subs: seq<Submission>, me: UserId, year: Year, loaded: Option<Submission>,
                       artists: seq<string>, songs: seq<string>, writeOk: bool): (r: (seq<Submission>, SaveOutcome))
    ensures r.1 == Incomplete <==> !AllFilled(artists) || !AllFilled(songs)
    ensures r.1 == Incomplete || r.1 == SaveFailed ==> r.0 == subs
    ensures r.1 == SaveFailed <==> AllFilled(artists) && AllFilled(songs) && !writeOk
    ensures r.1 == Saved <==> AllFilled(artists) && AllFilled(songs) && writeOk && loaded.None?
    ensures r.1 == Updated <==> AllFilled(artists) && AllFilled(songs) && writeOk && loaded.Some?
    ensures r.1 == Updated ==> (
      |r.0| == |subs| &&
      forall i :: 0 <= i < |subs| ==>
        r.0[i] == if subs[i].id == loaded.value.id
                  then Submission(subs[i].id, me, year, TrimAll(artists), TrimAll(songs)) else subs[i])
    ensures r.1 == Saved ==> (
      |r.0| == |subs| + 1 && r.0[..|subs|] == subs &&
      var n := r.0[|subs|];
      n.user == me && n.year == year && n.artists == TrimAll(artists) && n.songs == TrimAll(songs) &&
      forall i :: 0 <= i < |subs| ==> subs[i].id != n.id)
  {
    if !AllFilled(artists) || !AllFilled(songs) then (subs, Incomplete)
    else if !writeOk then (subs, SaveFailed)
    else
      match loaded
      case Some(prior) => (Rewrite(subs, prior.id, me, year, TrimAll(artists), TrimAll(songs)), Updated)
      case None => (subs + [Submission(NextId(subs, (t: Submission) => t.id), me, year, TrimAll(artists), TrimAll(songs))], Saved)
  }

  /** Saving from a freshly loaded page keeps one submission per player and
      year, and keeps ids unique. */
  lemma {:induction false} SubmitKeepsOnePerPlayerYear(subs: seq<Submission>, me: UserId, year: Year,
                                                       artists: seq<string>, songs: seq<string>, writeOk: bool)
    requires OnePerPlayerYear(subs) && IdsUnique(subs)
    ensures var r := SubmitEntry(subs, me, year, LoadSubmission(subs, me, year), artists, songs, writeOk).0;
      OnePerPlayerYear(r) && IdsUnique(r)
  {
    var loaded := LoadSubmission(subs, me, year);
    var r := SubmitEntry(subs, me, year, loaded, artists, songs, writeOk);
    LoadSubmissionFinds(subs, me, year);
    if r.1 == Updated {
      var k :| 0 <= k < |subs| && subs[k] == loaded.value;
      RewriteKeeps(subs, k, me, year, TrimAll(artists), TrimAll(songs));
      assert r.0 == Rewrite(subs, subs[k].id, me, year, TrimAll(artists), TrimAll(songs));
    } else if r.1 == Saved {
      AppendKeeps(subs, Submission(NextId(subs, (t: Submission) => t.id), me, year, TrimAll(artists), TrimAll(songs)));
    }
  }

  /** Rewriting the player's own row by its id keeps every row's key and id. */
  lemma {:induction false} RewriteKeeps(subs: seq<Submission>, k: nat, me: UserId, year: Year,
                                        artists: seq<string>, songs: seq<string>)
    requires OnePerPlayerYear(subs) && IdsUnique(subs)
    requires k < |subs| && SubmissionKey(subs[k]) == EntryKey(me, year)
    ensures var r := Rewrite(subs, subs[k].id, me, year, artists, songs);
      OnePerPlayerYear(r) && IdsUnique(r)
  {
    var r := Rewrite(subs, subs[k].id, me, year, artists, songs);
    forall i | 0 <= i < |subs|
      ensures SubmissionKey(r[i]) == SubmissionKey(subs[i]) && r[i].id == subs[i].id
    {
      if subs[i].id == subs[k].id && i != k {
        assert false;
      }
    }
    assert OnePerPlayerYear(r) by {
      forall i, j | 0 <= i < j < |r|
        ensures SubmissionKey(r[i]) != SubmissionKey(r[j])
      {
        assert SubmissionKey(subs[i]) != SubmissionKey(subs[j]);
      }
    }
  }

  /** Adding a row whose key and id are new keeps both unique. */
  lemma {:induction false} AppendKeeps(subs: seq<Submission>, n: Submission)
    requires OnePerPlayerYear(subs) && IdsUnique(subs)
    requires forall i :: 0 <= i < |subs| ==> SubmissionKey(subs[i]) != SubmissionKey(n) && subs[i].id != n.id
    ensures OnePerPlayerYear(subs + [n]) && IdsUnique(subs + [n])
  {
    var r := subs + [n];
    forall i, j | 0 <= i < j < |r|
      ensures SubmissionKey(r[i]) != SubmissionKey(r[j]) && r[i].id != r[j].id
    {
      assert r[i] == subs[i];
      if j < |subs| {
        assert r[j] == subs[j];
      }
    }
  }
}
