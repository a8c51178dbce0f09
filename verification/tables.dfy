/** Row shapes of the game's database tables (lib/supabase.ts), plus the
    small wrappers every page uses to read them. */
module Tables {

  type UserId = string
  type Year = int

  /** Milliseconds since the epoch, the unit `Date.getTime()` works in. */
  type Millis = int

  datatype Option<+T> = None | Some(value: T) {
    function GetOr(default: T): T {
      match this
      case Some(v) => v
      case None => default
    }
  }

  /** What `.maybeSingle()` hands back for a filtered query: no row (data
      null), exactly one row, or an error because several rows matched
      (data null again). */
  datatype Single<+T> = NoRow | OneRow(row: T) | ManyRows {
    /** The `data` field of the response: only a unique match is returned. */
    function Data(): Option<T> {
      match this
      case OneRow(r) => Some(r)
      case _ => None
    }
  }

  function MaybeSingle<T>(rows: seq<T>): (r: Single<T>)
    ensures r.NoRow? <==> |rows| == 0
    ensures r.OneRow? <==> |rows| == 1
    ensures r.OneRow? ==> r.row == rows[0]
  {
    if |rows| == 0 then NoRow else if |rows| == 1 then OneRow(rows[0]) else ManyRows
  }

  /** An id no stored row has, standing for the serial id the database
      assigns to the next insert. */
  function NextId<T>(rows: seq<T>, idOf: T -> nat): (id: nat)
    ensures forall i :: 0 <= i < |rows| ==> idOf(rows[i]) < id
  {
    if |rows| == 0 then 0
    else
      var rest := NextId(rows[1..], idOf);
      assert forall i :: 1 <= i < |rows| ==> rows[i] == rows[1..][i - 1];
      if idOf(rows[0]) < rest then rest else idOf(rows[0]) + 1
  }

  datatype Profile = Profile(id: UserId, displayName: string)

  /** One row of `buffalo_balances`: how many buffalos `caller` may still
      call on `recipient` in `year`. */
  datatype BalanceRow = BalanceRow(caller: UserId, recipient: UserId, year: Year, balance: int)

  /** The triple a balance row is looked up by. */
  datatype PairKey = PairKey(caller: UserId, recipient: UserId, year: Year)

  function KeyOf(b: BalanceRow): PairKey {
    PairKey(b.caller, b.recipient, b.year)
  }

  datatype CallStatus = Pending | Completed | Expired

  /** One row of `buffalo_calls`. */
  datatype BuffaloCall = BuffaloCall(
    id: nat,
    caller: UserId,
    recipient: UserId,
    year: Year,
    calledAt: Millis,
    photoUrl: Option<string>,
    photoUploadedAt: Option<Millis>,
    deadline: Option<Millis>,
    status: CallStatus,
    message: Option<string>,
    videoUrl: Option<string>)

  datatype RequestStatus = Requested | Accepted | Declined

  /** One row of `buffalo_requests`; `Requested` is the stored status
      'pending'. */
  datatype BuffaloRequest = BuffaloRequest(
    id: nat,
    requester: UserId,
    recipient: UserId,
    year: Year,
    status: RequestStatus,
    note: Option<string>,
    createdAt: Millis,
    respondedAt: Option<Millis>)

  /** One row of `submissions`: a player's predicted artists and songs. */
  datatype Submission = Submission(id: nat, user: UserId, year: Year, artists: seq<string>, songs: seq<string>)

  /** One row of `results`: the actual artists and songs of a player. */
  datatype ResultRow = ResultRow(user: UserId, year: Year, actualArtists: seq<string>, actualSongs: seq<string>)

  /** The figures the scoring library computes for one player. */
  datatype ScoreFigures = ScoreFigures(
    correctArtists: int,
    correctSongs: int,
    totalCorrect: int,
    rankingAccuracy: int,
    exactMatch: int)

  /** One row of `scores`. */
  datatype ScoreRow = ScoreRow(user: UserId, year: Year, figures: ScoreFigures, finalRank: int)

  /** The fields of a `feed_events` insert. */
  datatype FeedEvent = FeedEvent(
    kind: string,
    user: UserId,
    related: Option<UserId>,
    year: Year,
    title: string,
    description: Option<string>)

  /** One stored row of `feed_events`: the inserted fields and the time the
      database stamped on them. */
  datatype EventRow = EventRow(event: FeedEvent, createdAt: Millis)

  /** The fields of a `notifications` insert. */
  datatype Notification = Notification(user: UserId, kind: string, title: string, message: string, link: string)
}
