/** Buffalo requests: the request dialog asks a player for a buffalo, and
    the notifications page lists the requests a player received and
    accepts (adding one unit to the requester's balance on them) or
    declines them. */
module Requests {
  import opened Tables
  import opened Seqs
  import opened Text
  import opened Ledger

  /** The triple a duplicate request is recognised by. */
  datatype RequestKey = RequestKey(requester: UserId, recipient: UserId, year: Year)

  function RequestKeyOf(q: BuffaloRequest): RequestKey {
    RequestKey(q.requester, q.recipient, q.year)
  }

  /** No two pending requests share a requester, a recipient and a year. */
  ghost predicate AtMostOnePending(requests: seq<BuffaloRequest>) {
    forall i, j :: 0 <= i < j < |requests| && requests[i].status == Requested && requests[j].status == Requested
      ==> RequestKeyOf(requests[i]) != RequestKeyOf(requests[j])
  }

  /** The rows the dialog's duplicate check selects. */
  function PendingWith(requests: seq<BuffaloRequest>, k: RequestKey): (r: seq<BuffaloRequest>)
    ensures forall q :: q in r <==> q in requests && RequestKeyOf(q) == k && q.status == Requested
  {
    Filter(requests, (q: BuffaloRequest) => RequestKeyOf(q) == k && q.status == Requested)
  }

  /** With at most one pending request per triple, the duplicate check
      never matches several rows, and finds one exactly when a pending
      request with the triple exists. */
  lemma {:induction false} PendingWithAtMostOne(requests: seq<BuffaloRequest>, k: RequestKey)
    requires AtMostOnePending(requests)
    ensures |PendingWith(requests, k)| <= 1
    ensures |PendingWith(requests, k)| == 1 <==> PendingIn(requests, k)
  {
    if |requests| > 0 {
      var rest := requests[1..];
      AtMostOnePendingTail(requests);
      PendingWithAtMostOne(rest, k);
      PendingWithCons(requests, k);
      PendingInCons(requests, k);
      if RequestKeyOf(requests[0]) == k && requests[0].status == Requested {
        HeadExcludesRest(requests, k);
      }
    }
  }

  /** A pending request with the triple exists. */
  ghost predicate PendingIn(requests: seq<BuffaloRequest>, k: RequestKey) {
    exists i :: 0 <= i < |requests| && RequestKeyOf(requests[i]) == k && requests[i].status == Requested
  }

  lemma {:induction false} PendingInCons(requests: seq<BuffaloRequest>, k: RequestKey)
    requires |requests| > 0
    ensures PendingIn(requests, k) <==>
      (RequestKeyOf(requests[0]) == k && requests[0].status == Requested) || PendingIn(requests[1..], k)
  {
    var rest := requests[1..];
    if PendingIn(requests, k) {
      var i :| 0 <= i < |requests| && RequestKeyOf(requests[i]) == k && requests[i].status == Requested;
      if i > 0 {
        assert rest[i - 1] == requests[i];
      }
    }
    if PendingIn(rest, k) {
      var i :| 0 <= i < |rest| && RequestKeyOf(rest[i]) == k && rest[i].status == Requested;
      assert requests[i + 1] == rest[i];
    }
  }

  lemma {:induction false} HeadExcludesRest(requests: seq<BuffaloRequest>, k: RequestKey)
    requires |requests| > 0 && AtMostOnePending(requests)
    requires RequestKeyOf(requests[0]) == k && requests[0].status == Requested
    ensures !PendingIn(requests[1..], k)
  {
    var rest := requests[1..];
    forall i | 0 <= i < |rest|
      ensures !(RequestKeyOf(rest[i]) == k && rest[i].status == Requested)
    {
      assert requests[i + 1] == rest[i];
    }
  }

  lemma {:induction false} AtMostOnePendingTail(requests: seq<BuffaloRequest>)
    requires |requests| > 0 && AtMostOnePending(requests)
    ensures AtMostOnePending(requests[1..])
  {
    var rest := requests[1..];
    forall i, j | 0 <= i < j < |rest| && rest[i].status == Requested && rest[j].status == Requested
      ensures RequestKeyOf(rest[i]) != RequestKeyOf(rest[j])
    {
      assert rest[i] == requests[i + 1] && rest[j] == requests[j + 1];
    }
  }

  lemma {:induction false} PendingWithCons(requests: seq<BuffaloRequest>, k: RequestKey)
    requires |requests| > 0
    ensures PendingWith(requests, k) ==
      (if RequestKeyOf(requests[0]) == k && requests[0].status == Requested then [requests[0]] else []) + PendingWith(requests[1..], k)
  {
    assert requests == [requests[0]] + requests[1..];
    FilterCons(requests[0], requests[1..], (q: BuffaloRequest) => RequestKeyOf(q) == k && q.status == Requested);
  }

  function RequestGreeting(name: string): string {
    name + " wants to add a buffalo on you"
  }

  /** The notification text: the greeting, followed by `: "<note>"` only
      when the trimmed note is not empty. */
  function RequestMessage(name: string, note: string): (m: string)
    ensures |RequestGreeting(name)| <= |m| && m[..|RequestGreeting(name)|] == RequestGreeting(name)
    ensures m == RequestGreeting(name) <==> IsBlank(note)
    ensures !IsBlank(note) ==>
      |m| == |RequestGreeting(name)| + |Trim(note)| + 4 &&
      m[|RequestGreeting(name)| + 3..|m| - 1] == Trim(note)
  {
    var g := RequestGreeting(name);
    var t := Trim(note);
    if t != "" then
      var m := g + ": \"" + t + "\"";
      assert m[|g| + 3..|m| - 1] == t;
      m
    else g
  }

  datatype SendOutcome = NotSignedIn | AlreadyPending | RequestInsertFailed | Sent

  datatype SendResult = SendResult(
    requests: seq<BuffaloRequest>,
    outcome: SendOutcome,
    notification: Option<Notification>,
    event: Option<FeedEvent>)

  /** The dialog's `handleSubmit`: refuse when a pending request with the
      same triple is found, otherwise insert a pending request with the
      trimmed note, notify the recipient and log a feed event. `checkOk`
      says whether the duplicate check's query succeeds: when it fails its
      data is null and the request goes ahead. `insertOk` says whether the
      insert succeeds; the notification and feed-event errors are ignored. */
  function SendRequest(requests: seq<BuffaloRequest>, user: Option<UserId>, profile: Option<Profile>,
                       recipient: Profile, year: Year, now: Millis, note: string,
                       checkOk: bool, insertOk: bool): (r: SendResult)
    ensures r.outcome == NotSignedIn <==> user.None? || profile.None?
    ensures r.outcome == AlreadyPending ==> checkOk
    ensures r.outcome == RequestInsertFailed ==> !insertOk
    ensures r.outcome != Sent ==> r.requests == requests && r.notification.None? && r.event.None?
    ensures r.outcome == Sent ==>
      user.Some? && insertOk &&
      |r.requests| == |requests| + 1 && r.requests[..|requests|] == requests &&
      var q := r.requests[|requests|];
      RequestKeyOf(q) == RequestKey(user.value, recipient.id, year) && q.status == Requested &&
      q.createdAt == now && q.respondedAt.None? &&
      (q.note.None? <==> IsBlank(note)) && (q.note.Some? ==> q.note.value == Trim(note)) &&
      (forall i :: 0 <= i < |requests| ==> requests[i].id != q.id)
    ensures r.outcome == Sent ==>
      r.notification.Some? && r.notification.value.user == recipient.id &&
      r.notification.value.kind == "buffalo_request" && r.notification.value.title == "New Buffalo Request" &&
      r.notification.value.message == RequestMessage(profile.value.displayName, note) &&
      r.notification.value.link == "/player/" + user.value
    ensures r.outcome == Sent ==>
      r.event.Some? && r.event.value.kind == "buffalo_request" &&
      r.event.value.user == user.value && r.event.value.related == Some(recipient.id) && r.event.value.year == year &&
      r.event.value.title == profile.value.displayName + " requested a buffalo on " + recipient.displayName &&
      r.event.value.description == Some(if IsBlank(note) then "Buffalo request sent" else Trim(note))
  {
    if user.None? || profile.None? then SendResult(requests, NotSignedIn, None, None)
    else
      var key := RequestKey(user.value, recipient.id, year);
      var existing := if checkOk then MaybeSingle(PendingWith(requests, key)).Data() else None;
      if existing.Some? then SendResult(requests, AlreadyPending, None, None)
      else if !insertOk then SendResult(requests, RequestInsertFailed, None, None)
      else
        var trimmed := Trim(note);
        var q := BuffaloRequest(NextId(requests, (b: BuffaloRequest) => b.id), user.value, recipient.id, year, Requested,
                                NullIfEmpty(trimmed), now, None);
        var notification := Notification(recipient.id, "buffalo_request", "New Buffalo Request",
                                          RequestMessage(profile.value.displayName, note), "/player/" + user.value);
        var event := FeedEvent("buffalo_request", user.value, Some(recipient.id), year,
                               profile.value.displayName + " requested a buffalo on " + recipient.displayName,
                               Some(OrElse(trimmed, "Buffalo request sent")));
        SendResult(requests + [q], Sent, Some(notification), Some(event))
  }

  /** With the duplicate check answering, a signed-in player's request is
      refused as a duplicate exactly when a pending request with the same
      triple exists. */
  lemma {:induction false} SendRefusesDuplicate(requests: seq<BuffaloRequest>, user: Option<UserId>, profile: Option<Profile>,
                             recipient: Profile, year: Year, now: Millis, note: string, insertOk: bool)
    requires AtMostOnePending(requests) && user.Some? && profile.Some?
    ensures SendRequest(requests, user, profile, recipient, year, now, note, true, insertOk).outcome == AlreadyPending <==>
      exists i :: 0 <= i < |requests| && RequestKeyOf(requests[i]) == RequestKey(user.value, recipient.id, year)
        && requests[i].status == Requested
  {
    PendingWithAtMostOne(requests, RequestKey(user.value, recipient.id, year));
  }

  /** A signed-in player's request is stored whenever the insert succeeds
      and the duplicate check, if it answers, finds no pending request with
      the same triple. */
  lemma {:induction false} SendSucceeds(requests: seq<BuffaloRequest>, user: Option<UserId>, profile: Option<Profile>,
                     recipient: Profile, year: Year, now: Millis, note: string, checkOk: bool)
    requires AtMostOnePending(requests)
    ensures (user.Some? && profile.Some? &&
             (checkOk ==> forall i :: 0 <= i < |requests| ==>
               !(RequestKeyOf(requests[i]) == RequestKey(user.value, recipient.id, year) && requests[i].status == Requested)))
      ==> SendRequest(requests, user, profile, recipient, year, now, note, checkOk, true).outcome == Sent
  {
    if user.Some? && profile.Some? && checkOk {
      SendRefusesDuplicate(requests, user, profile, recipient, year, now, note, true);
    }
  }

  /** Sending requests one at a time, with the duplicate check answering,
      keeps at most one pending request per triple. */
  lemma {:induction false} SendKeepsAtMostOnePending(requests: seq<BuffaloRequest>, user: Option<UserId>, profile: Option<Profile>,
                                  recipient: Profile, year: Year, now: Millis, note: string, insertOk: bool)
    requires AtMostOnePending(requests)
    ensures AtMostOnePending(SendRequest(requests, user, profile, recipient, year, now, note, true, insertOk).requests)
  {
    var r := SendRequest(requests, user, profile, recipient, year, now, note, true, insertOk);
    if r.outcome == Sent {
      SendRefusesDuplicate(requests, user, profile, recipient, year, now, note, insertOk);
      var n := |requests|;
      forall i, j | 0 <= i < j < |r.requests| && r.requests[i].status == Requested && r.requests[j].status == Requested
        ensures RequestKeyOf(r.requests[i]) != RequestKeyOf(r.requests[j])
      {
        if j == n {
          assert r.requests[i] == requests[i];
        } else {
          assert r.requests[i] == requests[i] && r.requests[j] == requests[j];
        }
      }
    }
  }

  /** When the duplicate check's query fails, a second pending request for
      the same triple is stored. */
  lemma {:induction false} SendAfterFailedCheckDuplicates()
    ensures var p := Profile("a", "A");
      var q := BuffaloRequest(0, "a", "b", 2025, Requested, None, 0, None);
      var r := SendRequest([q], Some("a"), Some(p), Profile("b", "B"), 2025, 1, "", false, true);
      r.outcome == Sent && AtMostOnePending([q]) && !AtMostOnePending(r.requests)
  {
    var p := Profile("a", "A");
    var q := BuffaloRequest(0, "a", "b", 2025, Requested, None, 0, None);
    var r := SendRequest([q], Some("a"), Some(p), Profile("b", "B"), 2025, 1, "", false, true);
    assert RequestKeyOf(r.requests[1]) == RequestKeyOf(r.requests[0]);
  }

  function CreatedAt(q: BuffaloRequest): int {
    q.createdAt
  }

  /** The pending list: the requests addressed to `me` still pending,
      newest first. */
  function LoadPending(requests: seq<BuffaloRequest>, me: UserId): (r: seq<BuffaloRequest>)
    ensures forall q :: q in r <==> q in requests && q.recipient == me && q.status == Requested
    ensures SortedDesc(r, CreatedAt)
    ensures multiset(r) <= multiset(requests)
  {
    var f := Filter(requests, (q: BuffaloRequest) => q.recipient == me && q.status == Requested);
    var r := SortDesc(f, CreatedAt);
    assert forall q :: q in r <==> q in multiset(r);
    assert forall q :: q in f <==> q in multiset(f);
    r
  }

  /** The latest response time stored, or 0. */
  function LatestResponse(requests: seq<BuffaloRequest>): (t: int)
    ensures forall i :: 0 <= i < |requests| && requests[i].respondedAt.Some? ==> requests[i].respondedAt.value <= t
  {
    if |requests| == 0 then 0
    else
      var rest := LatestResponse(requests[1..]);
      assert forall i :: 1 <= i < |requests| ==> requests[i] == requests[1..][i - 1];
      match requests[0].respondedAt
      case Some(t0) => if t0 > rest then t0 else rest
      case None => rest
  }

  /** The sort key of `.order('responded_at', { ascending: false })`: a
      descending order puts rows without a response time first, so they
      rank above the latest stored time. */
  function RespondedRank(top: int): BuffaloRequest -> int {
    (q: BuffaloRequest) => match q.respondedAt case Some(t) => t case None => top
  }

  /** `.eq('recipient_id', me).in('status', ['accepted', 'declined'])`. */
  function AnsweredTo(me: UserId): BuffaloRequest -> bool {
    (q: BuffaloRequest) => q.recipient == me && q.status != Requested
  }

  /** The past list: at most 10 requests addressed to `me` that were
      accepted or declined, the most recently answered first. It holds
      all of them when there are at most 10, and 10 otherwise. */
  function LoadPast(requests: seq<BuffaloRequest>, me: UserId): (r: seq<BuffaloRequest>)
    ensures |r| <= 10
    ensures var answered := |Filter(requests, AnsweredTo(me))|;
      |r| == if answered <= 10 then answered else 10
    ensures |Filter(requests, AnsweredTo(me))| <= 10 ==>
      forall q :: q in requests && q.recipient == me && q.status != Requested ==> q in r
    ensures forall q :: q in r ==> q in requests && q.recipient == me && q.status != Requested
    ensures forall x, y :: x in r && y in requests && y.recipient == me && y.status != Requested && y !in r ==>
      x.respondedAt.None? || (y.respondedAt.Some? && y.respondedAt.value <= x.respondedAt.value)
  {
    var f := Filter(requests, AnsweredTo(me));
    var top := LatestResponse(requests) + 1;
    PastMembers(requests, me, f, top);
    PastRanking(requests, me, f, top);
    PastAll(requests, me, f, top);
    Newest(f, RespondedRank(top), 10)
  }

  lemma {:induction false} PastAll(requests: seq<BuffaloRequest>, me: UserId, f: seq<BuffaloRequest>, top: int)
    requires f == Filter(requests, AnsweredTo(me))
    ensures |f| <= 10 ==>
      forall q :: q in requests && q.recipient == me && q.status != Requested ==> q in Newest(f, RespondedRank(top), 10)
  {
    if |f| <= 10 {
      NewestKeepsAll(f, RespondedRank(top), 10);
      forall q | q in requests && q.recipient == me && q.status != Requested
        ensures q in f
      {
        assert AnsweredTo(me)(q);
      }
    }
  }

  lemma {:induction false} PastMembers(requests: seq<BuffaloRequest>, me: UserId, f: seq<BuffaloRequest>, top: int)
    requires f == Filter(requests, AnsweredTo(me))
    ensures forall q :: q in Newest(f, RespondedRank(top), 10) ==> q in requests && q.recipient == me && q.status != Requested
  {
    var r := Newest(f, RespondedRank(top), 10);
    forall q | q in r
      ensures q in requests && q.recipient == me && q.status != Requested
    {
      assert q in multiset(f);
    }
  }

  lemma {:induction false} PastRanking(requests: seq<BuffaloRequest>, me: UserId, f: seq<BuffaloRequest>, top: int)
    requires f == Filter(requests, AnsweredTo(me))
    requires top == LatestResponse(requests) + 1
    ensures var r := Newest(f, RespondedRank(top), 10);
      forall x, y :: x in r && y in requests && y.recipient == me && y.status != Requested && y !in r ==>
        x.respondedAt.None? || (y.respondedAt.Some? && y.respondedAt.value <= x.respondedAt.value)
  {
    var r := Newest(f, RespondedRank(top), 10);
    forall x, y | x in r && y in requests && y.recipient == me && y.status != Requested && y !in r
      ensures x.respondedAt.None? || (y.respondedAt.Some? && y.respondedAt.value <= x.respondedAt.value)
    {
      assert y in f;
      assert y in multiset(f) && y !in multiset(r);
      assert y in multiset(f) - multiset(r);
      assert x in multiset(f);
      var i :| 0 <= i < |requests| && requests[i] == x;
      RankedPair(x, y, top);
    }
  }

  /** Two answered requests ranked by `RespondedRank`: one placed ahead of
      the other was answered no earlier, and an unanswered one never
      ranks behind an answered one. */
  lemma {:induction false} RankedPair(x: BuffaloRequest, y: BuffaloRequest, top: int)
    requires RespondedRank(top)(x) >= RespondedRank(top)(y)
    requires x.respondedAt.Some? ==> x.respondedAt.value < top
    ensures x.respondedAt.None? || (y.respondedAt.Some? && y.respondedAt.value <= x.respondedAt.value)
  {
  }

  /** `.update({ status, responded_at }).eq('id', id)`. */
  function Resolve(requests: seq<BuffaloRequest>, id: nat, status: RequestStatus, now: Millis): (r: seq<BuffaloRequest>)
    ensures |r| == |requests|
    ensures forall i :: 0 <= i < |requests| ==>
      r[i] == if requests[i].id == id then requests[i].(status := status, respondedAt := Some(now)) else requests[i]
  {
    if |requests| == 0 then []
    else
      [if requests[0].id == id then requests[0].(status := status, respondedAt := Some(now)) else requests[0]]
      + Resolve(requests[1..], id, status, now)
  }

  /** A request on the notifications page with its requester's profile. */
  datatype Listed = Listed(request: BuffaloRequest, requester: Profile)

  datatype RespondState = RespondState(requests: seq<BuffaloRequest>, balances: seq<BalanceRow>)

  /** Where `handleRespond` stopped. */
  datatype RespondOutcome =
    | NoSession           // no user or profile
    | NotListed           // the id is not in the loaded pending list
    | StatusFailed        // the status update reported an error
    | CheckFailed         // the balance lookup reported an error (or matched several rows)
    | WriteFailed         // the balance update or insert reported an error
    | DeclineRecorded
    | AcceptRecorded

  datatype RespondResult = RespondResult(state: RespondState, outcome: RespondOutcome, event: Option<FeedEvent>)

  /** The balance table after an accepted request: the requester's row on
      `me` for the year, with one more unit, or a new row holding 1. */
  function Credit(balances: seq<BalanceRow>, found: Single<BalanceRow>, key: PairKey): seq<BalanceRow> {
    if found.OneRow? then SetBalance(balances, key, found.row.balance + 1)
    else balances + [BalanceRow(key.caller, key.recipient, key.year, 1)]
  }

  /** `pendingRequests.find(r => r.id === requestId)`'s test. */
  function HasId(requestId: nat): Listed -> bool {
    (l: Listed) => l.request.id == requestId
  }

  /** `handleRespond(requestId, accept)`: find the request in the loaded
      pending list, record the answer and its time, and on acceptance look
      up the requester's balance on the user for the current year with
      `maybeSingle` and add one unit, creating the row when there is none.
      The three fault flags say whether each database step succeeds; the
      feed event's own error is ignored. */
  function Respond(st: RespondState, user: Option<UserId>, profile: Option<Profile>,
                   loaded: seq<Listed>, requestId: nat, accept: bool,
                   now: Millis, currentYear: Year,
                   statusOk: bool, checkOk: bool, writeOk: bool): (r: RespondResult)
    ensures r.outcome == NoSession <==> user.None? || profile.None?
    ensures r.outcome == NotListed ==> forall i :: 0 <= i < |loaded| ==> loaded[i].request.id != requestId
    ensures r.outcome in {NoSession, NotListed, StatusFailed} ==> r.state == st
    ensures r.outcome != AcceptRecorded ==> r.event.None? && r.state.balances == st.balances
    ensures r.outcome in {DeclineRecorded, AcceptRecorded, CheckFailed, WriteFailed} ==>
      r.state.requests == Resolve(st.requests, requestId, if accept then Accepted else Declined, now)
    ensures r.outcome == DeclineRecorded ==> !accept
    ensures user.Some? && profile.Some? && (forall i :: 0 <= i < |loaded| ==> loaded[i].request.id != requestId) ==>
      r.outcome == NotListed
    ensures r.outcome == StatusFailed <==>
      user.Some? && profile.Some? && (exists i :: 0 <= i < |loaded| && loaded[i].request.id == requestId) && !statusOk
    ensures (user.Some? && profile.Some? && (exists i :: 0 <= i < |loaded| && loaded[i].request.id == requestId) &&
             statusOk && !accept) ==> r.outcome == DeclineRecorded
    ensures r.outcome == CheckFailed ==> accept && statusOk
    ensures r.outcome == WriteFailed ==> accept && statusOk && checkOk && !writeOk
    ensures r.outcome == AcceptRecorded ==> accept && statusOk && checkOk && writeOk
    ensures r.outcome == AcceptRecorded ==>
      user.Some? && profile.Some? && Find(loaded, HasId(requestId)).Some? &&
      var l := Find(loaded, HasId(requestId)).value;
      r.event.Some? && r.event.value.kind == "buffalo_accepted" &&
      r.event.value.user == l.request.requester && r.event.value.related == Some(user.value) &&
      r.event.value.year == currentYear &&
      r.event.value.title == profile.value.displayName + " accepted a buffalo from " + l.requester.displayName &&
      r.event.value.description ==
        Some(if l.request.note.Some? && l.request.note.value != "" then l.request.note.value else "Buffalo accepted!")
  {
    if user.None? || profile.None? then RespondResult(st, NoSession, None)
    else
      match Find(loaded, HasId(requestId))
      case None => RespondResult(st, NotListed, None)
      case Some(l) =>
        if !statusOk then RespondResult(st, StatusFailed, None)
        else
          var requests := Resolve(st.requests, requestId, if accept then Accepted else Declined, now);
          if !accept then RespondResult(RespondState(requests, st.balances), DeclineRecorded, None)
          else
            var key := PairKey(l.request.requester, user.value, currentYear);
            var found := Lookup(st.balances, key);
            if !checkOk || found.ManyRows? then RespondResult(RespondState(requests, st.balances), CheckFailed, None)
            else if !writeOk then RespondResult(RespondState(requests, st.balances), WriteFailed, None)
            else
              var event := FeedEvent("buffalo_accepted", l.request.requester, Some(user.value), currentYear,
                                     profile.value.displayName + " accepted a buffalo from " + l.requester.displayName,
                                     Some(OrElse(l.request.note.GetOr(""), "Buffalo accepted!")));
              RespondResult(RespondState(requests, Credit(st.balances, found, key)), AcceptRecorded, Some(event))
  }

  /** The requester an accepted response credits. */
  function CreditedKey(loaded: seq<Listed>, requestId: nat, user: UserId, currentYear: Year): PairKey
    requires Find(loaded, HasId(requestId)).Some?
  {
    PairKey(Find(loaded, HasId(requestId)).value.request.requester, user, currentYear)
  }

  /** What an accepted response leaves in the balance table. */
  lemma {:induction false} AcceptedBalances(st: RespondState, user: Option<UserId>, profile: Option<Profile>,
                         loaded: seq<Listed>, requestId: nat, accept: bool, now: Millis, currentYear: Year,
                         statusOk: bool, checkOk: bool, writeOk: bool)
    ensures var r := Respond(st, user, profile, loaded, requestId, accept, now, currentYear, statusOk, checkOk, writeOk);
      r.outcome == AcceptRecorded ==>
        user.Some? && Find(loaded, HasId(requestId)).Some? &&
        var key := CreditedKey(loaded, requestId, user.value, currentYear);
        !Lookup(st.balances, key).ManyRows? &&
        r.state.balances == Credit(st.balances, Lookup(st.balances, key), key)
  {
  }

  /** With the ledger's keys unique, a signed-in player accepting a listed
      request records it and credits the requester whenever all three
      database steps succeed. */
  lemma {:induction false} AcceptSucceeds(st: RespondState, user: Option<UserId>, profile: Option<Profile>,
                         loaded: seq<Listed>, requestId: nat, now: Millis, currentYear: Year)
    requires UniqueKeys(st.balances)
    ensures user.Some? && profile.Some? && (exists i :: 0 <= i < |loaded| && loaded[i].request.id == requestId) ==>
      Respond(st, user, profile, loaded, requestId, true, now, currentYear, true, true, true).outcome == AcceptRecorded
  {
    if user.Some? && profile.Some? && exists i :: 0 <= i < |loaded| && loaded[i].request.id == requestId {
      LookupUnique(st.balances, CreditedKey(loaded, requestId, user.value, currentYear));
    }
  }

  /** `after` is `before` with one more unit on `key` and nothing else
      changed; keys stay unique and balances stay non-negative. */
  ghost predicate CreditedOne(before: seq<BalanceRow>, after: seq<BalanceRow>, key: PairKey) {
    BalanceOf(after, key) == BalanceOf(before, key) + 1 &&
    (forall k :: k != key ==> BalanceOf(after, k) == BalanceOf(before, k)) &&
    UniqueKeys(after) && (NonNegative(before) ==> NonNegative(after)) &&
    SumBalances(after) == SumBalances(before) + 1
  }

  /** Crediting a pair adds one unit to its balance, whether or not it had
      a row, and touches no other pair; keys stay unique and balances stay
      non-negative. */
  lemma {:induction false} CreditAddsOne(balances: seq<BalanceRow>, key: PairKey)
    requires UniqueKeys(balances)
    ensures CreditedOne(balances, Credit(balances, Lookup(balances, key), key), key)
  {
    var found := Lookup(balances, key);
    if HasKey(balances, key) {
      LookupHit(balances, key);
      CreditExisting(balances, key, found);
    } else {
      LookupMiss(balances, key);
      CreditNew(balances, key, found);
    }
  }

  lemma {:induction false} CreditExisting(balances: seq<BalanceRow>, key: PairKey, found: Single<BalanceRow>)
    requires UniqueKeys(balances) && HasKey(balances, key)
    requires found.OneRow? && found.row.balance == BalanceOf(balances, key)
    ensures CreditedOne(balances, Credit(balances, found, key), key)
  {
    assert Credit(balances, found, key) == SetBalance(balances, key, found.row.balance + 1);
    SetCreditedOne(balances, key, found.row.balance + 1);
  }

  lemma {:induction false} SetCreditedOne(balances: seq<BalanceRow>, key: PairKey, v: int)
    requires UniqueKeys(balances) && HasKey(balances, key) && v == BalanceOf(balances, key) + 1
    ensures CreditedOne(balances, SetBalance(balances, key, v), key)
  {
    SetBalanceEffectAll(balances, key, v);
    SetBalanceKeeps(balances, key, v);
    SumSetBalance(balances, key, v);
    if NonNegative(balances) {
      BalanceOfNonNegative(balances, key);
    }
  }

  lemma {:induction false} CreditNew(balances: seq<BalanceRow>, key: PairKey, found: Single<BalanceRow>)
    requires UniqueKeys(balances) && !HasKey(balances, key) && found == NoRow
    ensures CreditedOne(balances, Credit(balances, found, key), key)
  {
    var row := BalanceRow(key.caller, key.recipient, key.year, 1);
    var b := balances + [row];
    assert Credit(balances, found, key) == b;
    assert KeyOf(row) == key;
    BalanceOfAbsent(balances, key);
    AppendEffectAll(balances, row);
    SumBalancesAppend(balances, [row]);
    assert SumBalances([row]) == 1;
    forall i, j | 0 <= i < j < |b|
      ensures KeyOf(b[i]) != KeyOf(b[j])
    {
      if j == |balances| {
        assert KeyOf(balances[i]) != key;
      } else {
        assert b[i] == balances[i] && b[j] == balances[j];
      }
    }
  }

  /** Accepting adds exactly one unit to the requester's balance on the
      user for the current year, creating the row with 1 when it is
      missing, and changes no other pair. */
  lemma {:induction false} AcceptCredits(st: RespondState, user: Option<UserId>, profile: Option<Profile>,
                      loaded: seq<Listed>, requestId: nat, accept: bool, now: Millis, currentYear: Year,
                      statusOk: bool, checkOk: bool, writeOk: bool)
    requires UniqueKeys(st.balances)
    ensures var r := Respond(st, user, profile, loaded, requestId, accept, now, currentYear, statusOk, checkOk, writeOk);
      r.outcome == AcceptRecorded ==>
        var key := CreditedKey(loaded, requestId, user.value, currentYear);
        BalanceOf(r.state.balances, key) == BalanceOf(st.balances, key) + 1 &&
        (forall k :: k != key ==> BalanceOf(r.state.balances, k) == BalanceOf(st.balances, k)) &&
        UniqueKeys(r.state.balances) && (NonNegative(st.balances) ==> NonNegative(r.state.balances))
  {
    var r := Respond(st, user, profile, loaded, requestId, accept, now, currentYear, statusOk, checkOk, writeOk);
    AcceptedBalances(st, user, profile, loaded, requestId, accept, now, currentYear, statusOk, checkOk, writeOk);
    if r.outcome == AcceptRecorded {
      CreditAddsOne(st.balances, CreditedKey(loaded, requestId, user.value, currentYear));
    }
  }

  /** Answering a request only moves requests out of pending, so at most
      one pending request per triple stays true. */
  lemma {:induction false} ResolveKeepsAtMostOnePending(requests: seq<BuffaloRequest>, id: nat, status: RequestStatus, now: Millis)
    requires AtMostOnePending(requests) && status != Requested
    ensures AtMostOnePending(Resolve(requests, id, status, now))
  {
    var r := Resolve(requests, id, status, now);
    forall i, j | 0 <= i < j < |r| && r[i].status == Requested && r[j].status == Requested
      ensures RequestKeyOf(r[i]) != RequestKeyOf(r[j])
    {
      assert r[i] == requests[i] && r[j] == requests[j];
    }
  }

  /** Freshly loaded, the pending list holds only pending requests
      addressed to the user, so the request being answered is one. */
  lemma {:induction false} FreshListIsPending(requests: seq<BuffaloRequest>, me: UserId, loaded: seq<Listed>, requestId: nat)
    requires forall i :: 0 <= i < |loaded| ==> loaded[i].request in LoadPending(requests, me)
    ensures var f := Find(loaded, HasId(requestId));
      f.Some? ==> f.value.request.status == Requested && f.value.request.recipient == me && f.value.request in requests
  {
  }

  /** The page answers from the list it loaded, not from the table: a
      request already accepted elsewhere but still on the page is
      accepted again and credits a second unit. */
  lemma {:induction false} StaleListCreditsTwice()
    ensures var q := BuffaloRequest(7, "a", "b", 2025, Accepted, None, 0, Some(5));
      var row := BalanceRow("a", "b", 2025, 1);
      var st := RespondState([q], [row]);
      var r := Respond(st, Some("b"), Some(Profile("b", "B")), [Listed(q.(status := Requested, respondedAt := None), Profile("a", "A"))],
                       7, true, 9, 2025, true, true, true);
      r.outcome == AcceptRecorded && BalanceOf(r.state.balances, KeyOf(row)) == 2
  {
  }
}
