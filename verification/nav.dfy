/** The bottom navigation bar: which tab is highlighted for a path, and
    the count badge on the Alerts tab. */
module Nav {
  import opened Tables
  import opened Seqs
  import opened Text

  datatype NavItem = NavItem(href: string, caption: string, badge: Option<int>)

  /** `navItems`: six tabs, the Alerts tab carrying the notification
      count. */
  function NavItems(count: int): (r: seq<NavItem>)
    ensures |r| == 6
    ensures forall i :: 0 <= i < |r| ==> (r[i].badge.Some? <==> r[i].caption == "Alerts")
    ensures forall i :: 0 <= i < |r| && r[i].badge.Some? ==> r[i].badge.value == count
  {
    [ NavItem("/", "Home", None),
      NavItem("/submit", "Submit", None),
      NavItem("/buffalo-board", "Buffalo", None),
      NavItem("/feed", "Feed", None),
      NavItem("/notifications", "Alerts", Some(count)),
      NavItem("/profile", "Profile", None) ]
  }

  /** `pathname === href || (href !== '/' && pathname.startsWith(href))`. */
  predicate IsActive(pathname: string, href: string) {
    pathname == href || (href != "/" && StartsWith(pathname, href))
  }

  /** The home tab is lit only on the root itself; any other tab on every
      path that begins with its href. */
  lemma {:induction false} ActiveIff(pathname: string, href: string)
    ensures href == "/" ==> (IsActive(pathname, href) <==> pathname == "/")
    ensures href != "/" ==> (IsActive(pathname, href) <==> StartsWith(pathname, href))
  {
    if pathname == href {
      assert pathname[..|href|] == href;
    }
  }

  /** The match is on characters, not path segments: `/feedback` lights
      the Feed tab. */
  lemma {:induction false} PrefixNotSegment()
    ensures IsActive("/feedback", "/feed")
    ensures IsActive("/feed/123", "/feed")
    ensures !IsActive("/fee", "/feed")
  {
    assert "/feedback"[..5] == "/feed";
    assert "/feed/123"[..5] == "/feed";
  }

  /** Two prefixes of one path: the shorter is a prefix of the longer. */
  lemma {:induction false} PrefixesNest(p: string, a: string, b: string)
    ensures StartsWith(p, a) && StartsWith(p, b) && |a| <= |b| ==> StartsWith(b, a)
  {
    if StartsWith(p, a) && StartsWith(p, b) && |a| <= |b| {
      assert b[..|a|] == p[..|b|][..|a|];
    }
  }

  /** On any path at most one tab is lit: no tab's href is a prefix of
      another's, other than the root's, which only matches exactly. */
  lemma {:induction false} AtMostOneActive(pathname: string, count: int, i: nat, j: nat)
    requires i < j < 6
    ensures !(IsActive(pathname, NavItems(count)[i].href) && IsActive(pathname, NavItems(count)[j].href))
  {
    var items := NavItems(count);
    var a := items[i].href;
    var b := items[j].href;
    ActiveIff(pathname, a);
    ActiveIff(pathname, b);
    assert |b| > 1 && b[0] == '/';
    if i > 0 {
      assert |a| > 1 && a[1] != b[1];
      PrefixesNest(pathname, a, b);
      PrefixesNest(pathname, b, a);
    }
  }

  /** `item.badge > 9 ? '9+' : item.badge`. */
  function BadgeLabel(count: nat): (s: string)
    ensures count > 9 <==> s == "9+"
    ensures count <= 9 ==> s == NatToString(count) && |s| == 1
  {
    if count > 9 then "9+" else NatToString(count)
  }

  /** A shown count reads back as the number of requests when there are
      at most nine. */
  lemma {:induction false} BadgeLabelReads(count: nat)
    requires count <= 9
    ensures ParseInt(BadgeLabel(count)) == Some(count)
  {
    ParseIntNatToString(count);
  }

  /** What the badge slot of a tab renders. */
  datatype BadgeSlot =
    | NoBadge                 // nothing
    | StrayText(text: string) // a bare text node beside the icon
    | Badge(caption: string)    // the red count bubble

  /** `{item.badge && item.badge > 0 && (<bubble/>)}` as React renders it:
      an absent badge is falsy and renders nothing, but a badge of 0 is the
      value of the expression, and React prints the number 0. */
  function BadgeViewAsWritten(badge: Option<int>): (v: BadgeSlot)
    ensures badge.Some? && badge.value == 0 ==> v == StrayText("0")
  {
    match badge
    case None => NoBadge
    case Some(n) =>
      if n == 0 then StrayText("0")
      else if n < 0 then NoBadge
      else Badge(BadgeLabel(n))
  }

  /** The evident intent: a bubble exactly when the count is positive,
      with the capped label, and nothing otherwise. */
  function BadgeView(badge: Option<int>): (v: BadgeSlot)
    ensures v.StrayText? == false
    ensures v.Badge? <==> badge.Some? && badge.value > 0
    ensures v.Badge? ==> v.caption == BadgeLabel(badge.value)
  {
    match badge
    case Some(n) => if n > 0 then Badge(BadgeLabel(n)) else NoBadge
    case None => NoBadge
  }

  /** The two agree on every badge except a count of zero. */
  lemma {:induction false} BadgeViewsAgree(badge: Option<int>)
    ensures BadgeViewAsWritten(badge) == BadgeView(badge) <==> !(badge.Some? && badge.value == 0)
  {
  }

  /** The pending requests addressed to `me`, the rows the count query
      matches. */
  function PendingFor(requests: seq<BuffaloRequest>, me: UserId): seq<BuffaloRequest> {
    Filter(requests, (r: BuffaloRequest) => r.recipient == me && r.status == Requested)
  }

  /** The response to a query made with `{ count: 'exact', head: true }`:
      a head request returns no rows, only the count. */
  datatype CountResponse = CountResponse(data: Option<seq<BuffaloRequest>>, count: Option<nat>)

  function CountQuery(requests: seq<BuffaloRequest>, me: UserId): (r: CountResponse)
    ensures r.data.None?
    ensures r.count == Some(|PendingFor(requests, me)|)
  {
    CountResponse(None, Some(|PendingFor(requests, me)|))
  }

  /** `data?.length || 0`, what `loadNotificationCount` stores. */
  function NotificationCountAsWritten(resp: CountResponse): (n: nat)
    ensures resp.data.None? ==> n == 0
  {
    match resp.data
    case None => 0
    case Some(rows) => |rows|
  }

  /** The count the head query exists to fetch. */
  function NotificationCount(resp: CountResponse): (n: nat)
    ensures resp.count.Some? ==> n == resp.count.value
  {
    resp.count.GetOr(0)
  }

  /** As written the Alerts count is always 0, however many requests are
      pending, and so the Alerts tab always shows a stray "0". */
  lemma {:induction false} AlertsAsWritten(requests: seq<BuffaloRequest>, me: UserId)
    ensures var n := NotificationCountAsWritten(CountQuery(requests, me));
      n == 0 && BadgeViewAsWritten(NavItems(n)[4].badge) == StrayText("0")
  {
  }

  /** One pending request, and the count as written still reads 0. */
  lemma {:induction false} CountMissesPendingRequest()
    ensures var requests := [BuffaloRequest(1, "a", "b", 2025, Requested, None, 0, None)];
      NotificationCountAsWritten(CountQuery(requests, "b")) == 0
      && NotificationCount(CountQuery(requests, "b")) == 1
  {
    var requests := [BuffaloRequest(1, "a", "b", 2025, Requested, None, 0, None)];
    assert requests[0] in PendingFor(requests, "b");
  }

  /** With the count read from the response, the Alerts tab shows a bubble
      exactly when a request to the player is pending, and nothing
      otherwise. */
  lemma {:induction false} AlertsCorrected(requests: seq<BuffaloRequest>, me: UserId)
    ensures var n := NotificationCount(CountQuery(requests, me));
      var v := BadgeView(NavItems(n)[4].badge);
      n == |PendingFor(requests, me)|
      && (v.Badge? <==> exists i :: 0 <= i < |requests| && requests[i].recipient == me && requests[i].status == Requested)
      && (v.Badge? || v == NoBadge)
  {
    var pending := PendingFor(requests, me);
    if exists i :: 0 <= i < |requests| && requests[i].recipient == me && requests[i].status == Requested {
      var i :| 0 <= i < |requests| && requests[i].recipient == me && requests[i].status == Requested;
      assert requests[i] in pending;
    }
    if |pending| > 0 {
      assert pending[0] in requests;
    }
  }
}
