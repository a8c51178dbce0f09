/** The buffalo-call life cycle of the feed page: calling a buffalo spends
    one unit of a balance and opens a timed call, uploading proof completes
    a call, and the feed derives the time left, the pending flag and the
    merged activity list from the stored rows. */
module Calls {
  import opened Tables
  import opened Seqs
  import opened Text
  import opened Ledger

  const MinuteMillis: int := 60000

  /** The largest distance from the epoch, in milliseconds, a `Date` can
      hold (section 21.4.1.1 of ECMA-262). */
  const MaxTimeValue: int := 8_640_000_000_000_000

  /** TimeClip (section 21.4.1.31 of ECMA-262) on an integral time value:
      the time itself, or an invalid `Date` (`None`) when out of range. */
  function TimeClip(t: int): (r: Option<Millis>)
    ensures r.Some? <==> -MaxTimeValue <= t <= MaxTimeValue
    ensures r.Some? ==> r.value == t
  {
    if -MaxTimeValue <= t <= MaxTimeValue then Some(t) else None
  }

  /** `deadline.setMinutes(deadline.getMinutes() + parseInt(text))` on a
      `Date` holding `now`. `None` is the invalid `Date` a NaN or an
      out-of-range time leaves, on which `toISOString` throws. */
  function DeadlineFor(now: Millis, timerText: string): (r: Option<Millis>)
    ensures r.Some? ==> ParseInt(timerText).Some?
    ensures r.Some? ==> (r.value > now <==> ParseInt(timerText).value > 0)
  {
    match ParseInt(timerText)
    case None => None
    case Some(m) => TimeClip(now + m * MinuteMillis)
  }

  /** The timer field holding a printed number of minutes sets the deadline
      that many minutes after `now`. */
  lemma {:induction false} DeadlineForMinutes(now: Millis, n: nat)
    requires -MaxTimeValue <= now + n * MinuteMillis <= MaxTimeValue
    ensures DeadlineFor(now, NatToString(n)) == Some(now + n * MinuteMillis)
  {
    ParseIntNatToString(n);
  }

  /** An empty or blank timer field parses to NaN, so there is no valid
      deadline. */
  lemma {:induction false} DeadlineForBlank(now: Millis, timerText: string)
    requires AllWhitespace(timerText)
    ensures DeadlineFor(now, timerText) == None
  {
    assert TrimStart(timerText) == "";
  }

  /** `${profile?.display_name}`: a missing profile prints as `undefined`. */
  function ShownName(p: Option<Profile>): string {
    match p
    case Some(q) => q.displayName
    case None => "undefined"
  }

  /** The two tables calling a buffalo touches. */
  datatype CallState = CallState(balances: seq<BalanceRow>, calls: seq<BuffaloCall>)

  /** Where `handleCallBuffalo` stopped. */
  datatype CallOutcome =
    | NoRecipient          // no recipient selected: returns at once
    | NoBuffalos           // no unique balance row, or its balance is not positive
    | InvalidDeadline      // `toISOString` throws on the invalid deadline
    | InsertFailed         // the call insert reported an error
    | BalanceUpdateFailed  // the call is stored, the decrement reported an error
    | Called

  datatype CallResult = CallResult(state: CallState, outcome: CallOutcome, event: Option<FeedEvent>)

  /** The balance row a call may spend: the row `maybeSingle` returns, if
      its balance is positive. */
  function SpendableRow(balances: seq<BalanceRow>, key: PairKey): (r: Option<BalanceRow>)
    ensures r.Some? ==> KeyOf(r.value) == key && r.value.balance > 0
  {
    match Lookup(balances, key).Data()
    case None => None
    case Some(row) =>
      LookupKey(balances, key);
      if row.balance <= 0 then None else Some(row)
  }

  lemma {:induction false} LookupKey(balances: seq<BalanceRow>, key: PairKey)
    ensures Lookup(balances, key).OneRow? ==> KeyOf(Lookup(balances, key).row) == key
  {
    var m := Matching(balances, key);
    if |m| == 1 {
      assert m[0] in m;
    }
  }

  /** With unique keys, a row is spendable exactly when the pair's balance
      is positive, and it holds that balance. */
  lemma {:induction false} SpendableIff(balances: seq<BalanceRow>, key: PairKey)
    requires UniqueKeys(balances)
    ensures SpendableRow(balances, key).Some? <==> BalanceOf(balances, key) > 0
    ensures SpendableRow(balances, key).Some? ==> SpendableRow(balances, key).value.balance == BalanceOf(balances, key)
  {
    LookupUnique(balances, key);
    if !HasKey(balances, key) {
      BalanceOfAbsent(balances, key);
    }
  }

  /** The row `handleCallBuffalo` inserts into `buffalo_calls`. */
  function OpenedCall(calls: seq<BuffaloCall>, caller: UserId, recipient: UserId, year: Year,
                      now: Millis, deadline: Millis, customMessage: string): BuffaloCall {
    BuffaloCall(NextId(calls, (c: BuffaloCall) => c.id), caller, recipient, year, now, None, None, Some(deadline),
                Pending, NullIfEmpty(customMessage), None)
  }

  /** `handleCallBuffalo`: look up the caller's balance on the recipient for
      the year with `maybeSingle`, refuse unless it is positive, insert a
      pending call with its deadline, then write back the balance less one
      and log a feed event. `lookupOk` says whether the balance query
      succeeds: its error is not read, so a failed query leaves no data and
      is refused as having no buffalos. `insertOk` and `updateOk` say
      whether the two writes succeed; the feed-event insert's own error is
      ignored. */
  function CallBuffalo(st: CallState, caller: UserId, callerProfile: Option<Profile>,
                       recipient: Option<Profile>, year: Year, now: Millis,
                       timerText: string, customMessage: string,
                       lookupOk: bool, insertOk: bool, updateOk: bool): (r: CallResult)
    ensures r.outcome != Called ==> r.event == None
    ensures r.outcome != Called && r.outcome != BalanceUpdateFailed ==> r.state == st
    ensures r.outcome == BalanceUpdateFailed ==> r.state.balances == st.balances
    ensures r.outcome == Called || r.outcome == BalanceUpdateFailed ==>
      recipient.Some? && insertOk &&
      |r.state.calls| == |st.calls| + 1 && r.state.calls[..|st.calls|] == st.calls
    ensures r.outcome == Called ==> updateOk
    ensures r.outcome != NoRecipient && r.outcome != NoBuffalos ==> lookupOk
    ensures r.outcome == InvalidDeadline ==> DeadlineFor(now, timerText).None?
    ensures r.outcome == InsertFailed ==> !insertOk
    ensures r.outcome == BalanceUpdateFailed ==> !updateOk
    ensures r.outcome == Called ==>
      r.event.Some? && r.event.value.kind == "buffalo_call" &&
      r.event.value.user == caller && r.event.value.related == Some(recipient.value.id) && r.event.value.year == year &&
      r.event.value.title == ShownName(callerProfile) + " called buffalo on " + recipient.value.displayName &&
      r.event.value.description == Some(if customMessage == "" then "Time to take a shot!" else customMessage)
  {
    if recipient.None? then CallResult(st, NoRecipient, None)
    else
      var key := PairKey(caller, recipient.value.id, year);
      match (if lookupOk then SpendableRow(st.balances, key) else None)
      case None => CallResult(st, NoBuffalos, None)
      case Some(row) =>
        match DeadlineFor(now, timerText)
        case None => CallResult(st, InvalidDeadline, None)
        case Some(deadline) =>
          if !insertOk then CallResult(st, InsertFailed, None)
          else
            var calls := st.calls + [OpenedCall(st.calls, caller, recipient.value.id, year, now, deadline, customMessage)];
            if !updateOk then CallResult(CallState(st.balances, calls), BalanceUpdateFailed, None)
            else
              var balances := SetBalance(st.balances, key, row.balance - 1);
              var event := FeedEvent(
                "buffalo_call", caller, Some(recipient.value.id), year,
                ShownName(callerProfile) + " called buffalo on " + recipient.value.displayName,
                Some(OrElse(customMessage, "Time to take a shot!")));
              CallResult(CallState(balances, calls), Called, Some(event))
  }

  /** The row a call inserts: a pending call from the caller to the
      recipient for the year, called now, due at the deadline the timer
      gives, with no proof yet, the message or null for an empty one, and
      an id no earlier call has. */
  lemma {:induction false} CallRecorded(st: CallState, caller: UserId, callerProfile: Option<Profile>,
                     recipient: Option<Profile>, year: Year, now: Millis,
                     timerText: string, customMessage: string, lookupOk: bool, insertOk: bool, updateOk: bool)
    ensures var r := CallBuffalo(st, caller, callerProfile, recipient, year, now, timerText, customMessage, lookupOk, insertOk, updateOk);
      r.outcome == Called || r.outcome == BalanceUpdateFailed ==>
        var c := r.state.calls[|st.calls|];
        c.caller == caller && c.recipient == recipient.value.id && c.year == year &&
        c.status == Pending && c.calledAt == now && c.deadline == DeadlineFor(now, timerText) &&
        c.photoUrl.None? && c.videoUrl.None? && c.photoUploadedAt.None? &&
        c.message == NullIfEmpty(customMessage) &&
        (forall i :: 0 <= i < |st.calls| ==> st.calls[i].id != c.id)
  {
  }

  /** What a successful call leaves in the balance table. */
  lemma {:induction false} CalledBalances(st: CallState, caller: UserId, callerProfile: Option<Profile>,
                       recipient: Option<Profile>, year: Year, now: Millis,
                       timerText: string, customMessage: string, lookupOk: bool, insertOk: bool, updateOk: bool)
    ensures var r := CallBuffalo(st, caller, callerProfile, recipient, year, now, timerText, customMessage, lookupOk, insertOk, updateOk);
      r.outcome == Called ==>
        recipient.Some? &&
        var key := PairKey(caller, recipient.value.id, year);
        SpendableRow(st.balances, key).Some? &&
        r.state.balances == SetBalance(st.balances, key, SpendableRow(st.balances, key).value.balance - 1) &&
        |r.state.calls| == |st.calls| + 1
  {
  }

  /** With unique keys, a call gets past the balance check exactly when a
      recipient is selected, the balance query answers and the caller's
      balance on the recipient is positive. */
  lemma {:induction false} CallGate(st: CallState, caller: UserId, callerProfile: Option<Profile>,
                 recipient: Option<Profile>, year: Year, now: Millis,
                 timerText: string, customMessage: string, lookupOk: bool, insertOk: bool, updateOk: bool)
    requires UniqueKeys(st.balances)
    ensures var r := CallBuffalo(st, caller, callerProfile, recipient, year, now, timerText, customMessage, lookupOk, insertOk, updateOk);
      r.outcome != NoRecipient && r.outcome != NoBuffalos <==>
        recipient.Some? && lookupOk && BalanceOf(st.balances, PairKey(caller, recipient.value.id, year)) > 0
  {
    if recipient.Some? {
      SpendableIff(st.balances, PairKey(caller, recipient.value.id, year));
    }
  }

  /** With unique keys, a call on a recipient the caller holds buffalos on,
      with a timer that gives a valid deadline, succeeds whenever all three
      database steps do. */
  lemma {:induction false} CallSucceeds(st: CallState, caller: UserId, callerProfile: Option<Profile>,
                     recipient: Option<Profile>, year: Year, now: Millis,
                     timerText: string, customMessage: string)
    requires UniqueKeys(st.balances)
    ensures (recipient.Some? && BalanceOf(st.balances, PairKey(caller, recipient.value.id, year)) > 0 &&
             DeadlineFor(now, timerText).Some?)
      ==> CallBuffalo(st, caller, callerProfile, recipient, year, now, timerText, customMessage, true, true, true).outcome == Called
  {
    CallGate(st, caller, callerProfile, recipient, year, now, timerText, customMessage, true, true, true);
  }

  /** A successful call spends exactly one unit of the pair's balance,
      leaves every other pair's balance alone, and keeps the ledger's keys
      unique and its balances non-negative. */
  lemma {:induction false} CallSpendsOne(st: CallState, caller: UserId, callerProfile: Option<Profile>,
                      recipient: Option<Profile>, year: Year, now: Millis,
                      timerText: string, customMessage: string, lookupOk: bool, insertOk: bool, updateOk: bool)
    requires UniqueKeys(st.balances) && NonNegative(st.balances)
    ensures var r := CallBuffalo(st, caller, callerProfile, recipient, year, now, timerText, customMessage, lookupOk, insertOk, updateOk);
      r.outcome == Called ==>
        var key := PairKey(caller, recipient.value.id, year);
        BalanceOf(r.state.balances, key) == BalanceOf(st.balances, key) - 1 >= 0 &&
        (forall k :: k != key ==> BalanceOf(r.state.balances, k) == BalanceOf(st.balances, k)) &&
        UniqueKeys(r.state.balances) && NonNegative(r.state.balances)
  {
    CalledBalances(st, caller, callerProfile, recipient, year, now, timerText, customMessage, lookupOk, insertOk, updateOk);
    if recipient.Some? {
      SpendOneEffect(st.balances, PairKey(caller, recipient.value.id, year));
    }
  }

  /** Spending one unit from a spendable row lowers that pair's balance by
      one and no other. */
  lemma {:induction false} SpendOneEffect(balances: seq<BalanceRow>, key: PairKey)
    requires UniqueKeys(balances) && NonNegative(balances)
    ensures SpendableRow(balances, key).Some? ==>
      var b := SetBalance(balances, key, SpendableRow(balances, key).value.balance - 1);
      BalanceOf(b, key) == BalanceOf(balances, key) - 1 >= 0 &&
      (forall k :: k != key ==> BalanceOf(b, k) == BalanceOf(balances, k)) &&
      UniqueKeys(b) && NonNegative(b)
  {
    if SpendableRow(balances, key).Some? {
      SpendableIff(balances, key);
      var row := SpendableRow(balances, key).value;
      assert HasKey(balances, key) by {
        if !HasKey(balances, key) {
          BalanceOfAbsent(balances, key);
        }
      }
      SetBalanceEffectAll(balances, key, row.balance - 1);
      SetBalanceKeeps(balances, key, row.balance - 1);
    }
  }

  /** Every successful call is paid for: the balances lose exactly as much
      as the call table gains. */
  lemma {:induction false} CallConserves(st: CallState, caller: UserId, callerProfile: Option<Profile>,
                      recipient: Option<Profile>, year: Year, now: Millis,
                      timerText: string, customMessage: string, lookupOk: bool, insertOk: bool, updateOk: bool)
    requires UniqueKeys(st.balances)
    ensures var r := CallBuffalo(st, caller, callerProfile, recipient, year, now, timerText, customMessage, lookupOk, insertOk, updateOk);
      r.outcome == Called ==>
        SumBalances(r.state.balances) + |r.state.calls| == SumBalances(st.balances) + |st.calls|
  {
    CalledBalances(st, caller, callerProfile, recipient, year, now, timerText, customMessage, lookupOk, insertOk, updateOk);
    if recipient.Some? {
      SpendOneSum(st.balances, PairKey(caller, recipient.value.id, year));
    }
  }

  /** Spending one unit from a spendable row lowers the table total by one. */
  lemma {:induction false} SpendOneSum(balances: seq<BalanceRow>, key: PairKey)
    requires UniqueKeys(balances)
    ensures SpendableRow(balances, key).Some? ==>
      SumBalances(SetBalance(balances, key, SpendableRow(balances, key).value.balance - 1)) == SumBalances(balances) - 1
  {
    if SpendableRow(balances, key).Some? {
      SpendableIff(balances, key);
      var row := SpendableRow(balances, key).value;
      assert HasKey(balances, key) by {
        if !HasKey(balances, key) {
          BalanceOfAbsent(balances, key);
        }
      }
      SumSetBalance(balances, key, row.balance - 1);
    }
  }

  /** The call is inserted before the balance is decremented, so when the
      decrement fails the call stays stored without having been paid for:
      the pairing of call and decrement is not both-or-neither. */
  lemma {:induction false} UnpaidCallOnUpdateFailure(st: CallState, caller: UserId, callerProfile: Option<Profile>,
                                  recipient: Option<Profile>, year: Year, now: Millis,
                                  timerText: string, customMessage: string)
    requires UniqueKeys(st.balances) && recipient.Some?
    requires BalanceOf(st.balances, PairKey(caller, recipient.value.id, year)) > 0
    requires DeadlineFor(now, timerText).Some?
    ensures var r := CallBuffalo(st, caller, callerProfile, recipient, year, now, timerText, customMessage, true, true, false);
      r.outcome == BalanceUpdateFailed &&
      SumBalances(r.state.balances) + |r.state.calls| == SumBalances(st.balances) + |st.calls| + 1
  {
    CallGate(st, caller, callerProfile, recipient, year, now, timerText, customMessage, true, true, false);
  }

  /** `handleMediaUpload`: after the file is stored, every call with the
      given id is marked completed at `now`, with the file's URL in the
      video slot when its MIME type starts with `video/` and in the photo
      slot otherwise. Neither the call's status nor its deadline is
      consulted. */
  function UploadProof(calls: seq<BuffaloCall>, callId: nat, fileType: string, url: string,
                       now: Millis, uploadOk: bool, updateOk: bool): (r: seq<BuffaloCall>)
    ensures |r| == |calls|
    ensures forall i :: 0 <= i < |calls| && (calls[i].id != callId || !uploadOk || !updateOk) ==> r[i] == calls[i]
  {
    if !uploadOk || !updateOk then calls
    else MarkProved(calls, callId, StartsWith(fileType, "video/"), url, now)
  }

  /** The `update(updateData).eq('id', callId)` part of the upload. */
  function MarkProved(calls: seq<BuffaloCall>, callId: nat, isVideo: bool, url: string, now: Millis): (r: seq<BuffaloCall>)
    ensures |r| == |calls|
    ensures forall i :: 0 <= i < |calls| ==>
      r[i] == if calls[i].id == callId then Proved(calls[i], isVideo, url, now) else calls[i]
  {
    if |calls| == 0 then []
    else
      [if calls[0].id == callId then Proved(calls[0], isVideo, url, now) else calls[0]]
      + MarkProved(calls[1..], callId, isVideo, url, now)
  }

  function Proved(c: BuffaloCall, isVideo: bool, url: string, now: Millis): BuffaloCall {
    if isVideo then c.(photoUploadedAt := Some(now), status := Completed, videoUrl := Some(url))
    else c.(photoUploadedAt := Some(now), status := Completed, photoUrl := Some(url))
  }

  /** A successful upload completes the call whatever its status or
      deadline: the URL lands in exactly one slot, chosen by the MIME type,
      and the call's parties, year, deadline and message are kept. */
  lemma {:induction false} UploadCompletes(calls: seq<BuffaloCall>, callId: nat, fileType: string, url: string, now: Millis, i: nat)
    requires i < |calls| && calls[i].id == callId
    ensures var c := UploadProof(calls, callId, fileType, url, now, true, true)[i];
      c.status == Completed && c.photoUploadedAt == Some(now) &&
      c.caller == calls[i].caller && c.recipient == calls[i].recipient && c.year == calls[i].year &&
      c.deadline == calls[i].deadline && c.message == calls[i].message &&
      (StartsWith(fileType, "video/") ==> c.videoUrl == Some(url) && c.photoUrl == calls[i].photoUrl) &&
      (!StartsWith(fileType, "video/") ==> c.photoUrl == Some(url) && c.videoUrl == calls[i].videoUrl)
  {
  }

  /** The text `getTimeRemaining` returns, kept as its parts. */
  datatype Remaining =
    | NoDeadline                                 // null
    | TimeUp                                     // 'Expired'
    | HoursMinutes(hours: nat, minutes: nat)     // `${hours}h ${minutes % 60}m`
    | MinutesSeconds(minutes: nat, seconds: nat) // `${minutes}m ${seconds}s`

  /** `getTimeRemaining(deadline)` at time `now`. */
  function TimeRemaining(deadline: Option<Millis>, now: Millis): (r: Remaining)
    ensures r.NoDeadline? <==> deadline.None?
    ensures r.TimeUp? <==> deadline.Some? && deadline.value <= now
    ensures r.MinutesSeconds? ==>
      r.minutes <= 60 && r.seconds < 60 &&
      now + r.minutes * MinuteMillis + r.seconds * 1000 <= deadline.value < now + r.minutes * MinuteMillis + r.seconds * 1000 + 1000
    ensures r.HoursMinutes? ==>
      r.hours >= 1 && r.minutes < 60 && r.hours * 60 + r.minutes > 60 &&
      now + (r.hours * 60 + r.minutes) * MinuteMillis <= deadline.value < now + (r.hours * 60 + r.minutes + 1) * MinuteMillis
  {
    match deadline
    case None => NoDeadline
    case Some(end) =>
      var diff := end - now;
      if diff <= 0 then TimeUp
      else
        var minutes := diff / MinuteMillis;
        var seconds := (diff % MinuteMillis) / 1000;
        SplitMillis(diff);
        if minutes > 60 then HoursMinutes(minutes / 60, minutes % 60)
        else MinutesSeconds(minutes, seconds)
  }

  lemma {:induction false} SplitMillis(diff: int)
    requires diff > 0
    ensures var m := diff / MinuteMillis; var s := (diff % MinuteMillis) / 1000;
      m >= 0 && 0 <= s < 60 &&
      m * MinuteMillis + s * 1000 <= diff < m * MinuteMillis + s * 1000 + 1000 &&
      m == (m / 60) * 60 + m % 60 && 0 <= m % 60 < 60 &&
      m * MinuteMillis <= diff < m * MinuteMillis + MinuteMillis
  {
  }

  /** The string a `Remaining` prints as; `None` is null. */
  function RenderRemaining(r: Remaining): (s: Option<string>)
    ensures s.None? <==> r.NoDeadline?
    ensures s == Some("Expired") <==> r.TimeUp?
    ensures r.HoursMinutes? ==> ReadsAsTwo(s.value, r.hours, 'h', r.minutes, 'm')
    ensures r.MinutesSeconds? ==> ReadsAsTwo(s.value, r.minutes, 'm', r.seconds, 's')
  {
    match r
    case NoDeadline => None
    case TimeUp => Some("Expired")
    case HoursMinutes(h, m) =>
      TwoNumbersRead(NatToString(h) + "h " + NatToString(m) + "m", h, 'h', m, 'm');
      Some(NatToString(h) + "h " + NatToString(m) + "m")
    case MinutesSeconds(m, sec) =>
      TwoNumbersRead(NatToString(m) + "m " + NatToString(sec) + "s", m, 'm', sec, 's');
      Some(NatToString(m) + "m " + NatToString(sec) + "s")
  }

  /** `t` reads as `a`, the unit letter `u`, a space, then `b` and the unit
      letter `v`: `parseInt` gives back `a` from the whole text and `b`
      from what follows the first unit and space. */
  predicate ReadsAsTwo(t: string, a: nat, u: char, b: nat, v: char)
  {
    var k := |NatToString(a)|;
    ParseInt(t) == Some(a) && k + 2 <= |t| && t[k..k + 2] == [u, ' '] &&
    ParseInt(t[k + 2..]) == Some(b) && |t| > 0 && t[|t| - 1] == v
  }

  /** A countdown text built from two printed numbers and their unit
      letters reads back as those numbers. */
  lemma TwoNumbersRead(t: string, a: nat, u: char, b: nat, v: char)
    requires u == 'h' || u == 'm'
    requires v == 'm' || v == 's'
    requires t == NatToString(a) + [u, ' '] + NatToString(b) + [v]
    ensures ReadsAsTwo(t, a, u, b, v)
  {
    var tail := NatToString(b) + [v];
    UnitSplit(t, NatToString(a), u, tail);
    LeadingRead(t, a, u, [u, ' '] + tail);
    TailRead(t, |NatToString(a)| + 2, b, v);
  }

  lemma UnitSplit(t: string, p: string, u: char, tail: string)
    requires |tail| > 0
    requires t == p + [u, ' '] + tail
    ensures t == p + ([u, ' '] + tail)
    ensures t[|p|..|p| + 2] == [u, ' '] && t[|p| + 2..] == tail && t[|t| - 1] == tail[|tail| - 1]
  {
    assert t[|p|] == u && t[|p| + 1] == ' ';
  }

  lemma LeadingRead(t: string, a: nat, u: char, rest: string)
    requires u == 'h' || u == 'm'
    requires |rest| > 0 && rest[0] == u
    requires t == NatToString(a) + rest
    ensures ParseInt(t) == Some(a)
  {
    UnitLetter(u);
    ParseIntLeading(a, rest);
  }

  lemma TailRead(t: string, k: nat, b: nat, v: char)
    requires k <= |t| && t[k..] == NatToString(b) + [v]
    requires v == 'm' || v == 's'
    ensures ParseInt(t[k..]) == Some(b)
  {
    UnitLetter(v);
    ParseIntLeading(b, [v]);
  }

  /** The unit letters of a rendered countdown are not decimal digits and
      not a radix marker. */
  lemma UnitLetter(c: char)
    requires c == 'h' || c == 'm' || c == 's'
    ensures DigitValue(c, 10).None? && c != 'x' && c != 'X'
  {
  }

  /** `item.status === 'pending' && !isExpired`, where a call is expired when
      its time remaining prints as `Expired`. */
  predicate IsPending(c: BuffaloCall, now: Millis) {
    c.status == Pending && RenderRemaining(TimeRemaining(c.deadline, now)) != Some("Expired")
  }

  /** A call shows as pending exactly while its stored status is pending and
      its deadline, if any, lies ahead. Expiry is never stored. */
  lemma {:induction false} PendingIff(c: BuffaloCall, now: Millis)
    ensures IsPending(c, now) <==> c.status == Pending && (c.deadline.None? || now < c.deadline.value)
  {
    var r := TimeRemaining(c.deadline, now);
    if r.HoursMinutes? || r.MinutesSeconds? {
      assert RenderRemaining(r).value[|RenderRemaining(r).value| - 1] != 'd';
    }
  }

  /** The call a successful `CallBuffalo` opens stays pending until its
      deadline passes and no longer. */
  lemma {:induction false} OpenedCallPendingUntilDeadline(st: CallState, caller: UserId, callerProfile: Option<Profile>,
                                       recipient: Option<Profile>, year: Year, now: Millis,
                                       timerText: string, customMessage: string,
                                       lookupOk: bool, insertOk: bool, updateOk: bool, later: Millis)
    ensures var r := CallBuffalo(st, caller, callerProfile, recipient, year, now, timerText, customMessage, lookupOk, insertOk, updateOk);
      r.outcome == Called ==>
        var c := r.state.calls[|st.calls|];
        c.deadline.Some? && (IsPending(c, later) <==> later < c.deadline.value)
  {
    var r := CallBuffalo(st, caller, callerProfile, recipient, year, now, timerText, customMessage, lookupOk, insertOk, updateOk);
    CallRecorded(st, caller, callerProfile, recipient, year, now, timerText, customMessage, lookupOk, insertOk, updateOk);
    if r.outcome == Called {
      PendingIff(r.state.calls[|st.calls|], later);
    }
  }

  /** One entry of the merged activity list. */
  datatype Activity = Activity(kind: string, timestamp: Millis)

  function CallActivities(calls: seq<BuffaloCall>): (r: seq<Activity>)
    ensures |r| == |calls|
    ensures forall i :: 0 <= i < |calls| ==> r[i] == Activity("buffalo_call", calls[i].calledAt)
  {
    if |calls| == 0 then [] else [Activity("buffalo_call", calls[0].calledAt)] + CallActivities(calls[1..])
  }

  function EventActivities(events: seq<EventRow>): (r: seq<Activity>)
    ensures |r| == |events|
    ensures forall i :: 0 <= i < |events| ==> r[i] == Activity(events[i].event.kind, events[i].createdAt)
  {
    if |events| == 0 then [] else [Activity(events[0].event.kind, events[0].createdAt)] + EventActivities(events[1..])
  }

  function ActivityTime(a: Activity): int {
    a.timestamp
  }

  /** `allActivity`: the calls (typed `buffalo_call`, stamped when called)
      and the events (typed by their event type, stamped when created),
      newest first. */
  function AllActivity(calls: seq<BuffaloCall>, events: seq<EventRow>): (r: seq<Activity>)
    ensures SortedDesc(r, ActivityTime)
    ensures multiset(r) == multiset(CallActivities(calls) + EventActivities(events))
    ensures |r| == |calls| + |events|
  {
    SortDesc(CallActivities(calls) + EventActivities(events), ActivityTime)
  }

  /** `filteredActivity.length === 0`, which decides the "No activity yet"
      notice: the whole list on the `all` tab, the calls on the `buffalos`
      tab, and the entries of the tab's type otherwise. */
  predicate ShowsEmptyNotice(tab: string, calls: seq<BuffaloCall>, events: seq<EventRow>) {
    if tab == "all" then |AllActivity(calls, events)| == 0
    else if tab == "buffalos" then |calls| == 0
    else |Filter(AllActivity(calls, events), (a: Activity) => a.kind == tab)| == 0
  }

  lemma {:induction false} AllActivityMembers(calls: seq<BuffaloCall>, events: seq<EventRow>)
    ensures forall a :: a in AllActivity(calls, events) <==> a in CallActivities(calls) + EventActivities(events)
  {
    var merged := CallActivities(calls) + EventActivities(events);
    var all := AllActivity(calls, events);
    forall a
      ensures a in all <==> a in merged
    {
      assert a in all <==> a in multiset(all);
      assert a in merged <==> a in multiset(merged);
    }
  }

  lemma {:induction false} MergedKinds(calls: seq<BuffaloCall>, events: seq<EventRow>, tab: string)
    ensures (exists a :: a in CallActivities(calls) + EventActivities(events) && a.kind == tab) <==>
      (tab == "buffalo_call" && calls != []) || exists i :: 0 <= i < |events| && events[i].event.kind == tab
  {
    var merged := CallActivities(calls) + EventActivities(events);
    if exists a :: a in merged && a.kind == tab {
      var a :| a in merged && a.kind == tab;
      MergedKindSource(calls, events, a);
    }
    if tab == "buffalo_call" && calls != [] {
      assert merged[0].kind == tab;
    }
    if exists i :: 0 <= i < |events| && events[i].event.kind == tab {
      var i :| 0 <= i < |events| && events[i].event.kind == tab;
      assert merged[|calls| + i].kind == tab;
    }
  }

  /** Every merged entry is a call, or comes from an event of its type. */
  lemma {:induction false} MergedKindSource(calls: seq<BuffaloCall>, events: seq<EventRow>, a: Activity)
    requires a in CallActivities(calls) + EventActivities(events)
    ensures (a.kind == "buffalo_call" && calls != []) || exists i :: 0 <= i < |events| && events[i].event.kind == a.kind
  {
    var ca := CallActivities(calls);
    var ea := EventActivities(events);
    if a in ca {
      var j :| 0 <= j < |ca| && ca[j] == a;
      assert a.kind == "buffalo_call";
    } else {
      assert a in ea;
      var j :| 0 <= j < |ea| && ea[j] == a;
      assert events[j].event.kind == a.kind;
    }
  }

  /** An entry of a given type is in the merged list exactly when it comes
      from a call (type `buffalo_call`) or from an event of that type. */
  lemma {:induction false} ActivityKinds(calls: seq<BuffaloCall>, events: seq<EventRow>, tab: string)
    ensures (exists a :: a in AllActivity(calls, events) && a.kind == tab) <==>
      (tab == "buffalo_call" && calls != []) || exists i :: 0 <= i < |events| && events[i].event.kind == tab
  {
    AllActivityMembers(calls, events);
    MergedKinds(calls, events, tab);
  }

  /** The notice shows exactly when the selected tab has nothing to list. */
  lemma {:induction false} EmptyNoticeIff(tab: string, calls: seq<BuffaloCall>, events: seq<EventRow>)
    ensures ShowsEmptyNotice(tab, calls, events) <==>
      if tab == "all" then calls == [] && events == []
      else if tab == "buffalos" then calls == []
      else (tab == "buffalo_call" ==> calls == []) &&
           forall i :: 0 <= i < |events| ==> events[i].event.kind != tab
  {
    if tab != "all" && tab != "buffalos" {
      var all := AllActivity(calls, events);
      var f := Filter(all, (a: Activity) => a.kind == tab);
      ActivityKinds(calls, events, tab);
      if |f| > 0 {
        assert f[0] in f;
      }
    }
  }

  function CalledAt(c: BuffaloCall): int {
    c.calledAt
  }

  /** The calls the feed loads: ordered by `called_at`, newest first, at
      most 50. */
  function RecentCalls(calls: seq<BuffaloCall>): (r: seq<BuffaloCall>)
    ensures |r| == if |calls| <= 50 then |calls| else 50
    ensures SortedDesc(r, CalledAt)
    ensures multiset(r) <= multiset(calls)
    ensures forall x, y :: x in multiset(calls) - multiset(r) && y in r ==> y.calledAt >= x.calledAt
  {
    Newest(calls, CalledAt, 50)
  }
}
