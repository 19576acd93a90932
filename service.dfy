/** The notification entity and the retained notification list: the list
    that `NotificationService` keeps newest first, bounded by
    `max_notifications`, changed only by the `Notify` and `Closed` domain
    events and by the `Close` command. */
module Service {
  import opened Common

  datatype Urgency = Low | Normal | Critical

  /** Why a notification was closed; the code is the one carried by the
      NotificationClosed signal of the Desktop Notifications Specification. */
  datatype CloseReason = Expired | Dismissed | ByApi

  /** The capture time of a notification, kept as an opaque value. */
  datatype LocalTime = LocalTime(epochMillis: int)

  datatype Notification = Notification(
    id: u32,
    appName: string,
    appIcon: string,
    summary: string,
    body: string,
    actions: seq<(string, string)>,
    urgency: Urgency,
    expireTimeout: i32,
    timestamp: LocalTime,
    transient: bool)

  datatype NotificationEvent = Notify(notification: Notification) | Closed(id: u32, reason: CloseReason)

  datatype NotificationCommand = Close(id: u32)

  /** The `u32` a close reason is sent as. */
  function ReasonCode(reason: CloseReason): (code: u32)
    ensures 1 <= code <= 3
  {
    match reason
    case Expired => 1
    case Dismissed => 2
    case ByApi => 3
  }

  /** Reads a reason code back; defined exactly on the three codes. */
  function ReasonFromCode(code: u32): (r: Option<CloseReason>)
    ensures r.Some? <==> 1 <= code <= 3
    ensures r.Some? ==> ReasonCode(r.value) == code
  {
    if code == 1 then Some(Expired)
    else if code == 2 then Some(Dismissed)
    else if code == 3 then Some(ByApi)
    else None
  }

  lemma ReasonCodeRoundTrip(reason: CloseReason)
    ensures ReasonFromCode(ReasonCode(reason)) == Some(reason)
  {
  }

  /** No two entries share an id: the invariant the list is meant to keep. */
  predicate UniqueIds(s: seq<Notification>)
  {
    forall i, j :: 0 <= i < j < |s| ==> s[i].id != s[j].id
  }

  /** Index of the first entry with `id`, or `|s|` if there is none
      (`Iterator::position`). */
  function Position(s: seq<Notification>, id: u32): (i: nat)
    ensures i <= |s|
    ensures i < |s| ==> s[i].id == id
    ensures forall j :: 0 <= j < i ==> s[j].id != id
  {
    if s == [] then 0
    else if s[0].id == id then 0
    else 1 + Position(s[1..], id)
  }

  /** The list after `remove(pos)` of the first entry with `id`, if any. */
  function RemoveFirst(s: seq<Notification>, id: u32): (r: seq<Notification>)
    ensures |s| - 1 <= |r| <= |s|
    ensures forall x :: x in r ==> x in s
  {
    var pos := Position(s, id);
    if pos < |s| then s[..pos] + s[pos + 1..] else s
  }

  /** The list after `retain(|n| n.id != id)`. */
  function WithoutId(s: seq<Notification>, id: u32): (r: seq<Notification>)
    ensures |r| <= |s|
    ensures forall x :: x in r ==> x in s && x.id != id
  {
    Filter(s, (n: Notification) => n.id != id)
  }

  /** The timeout the list consults before storing a notification: the
      default for a negative or a zero `expire_timeout`, the value itself
      otherwise. */
  function EffectiveTimeout(expireTimeout: i32, defaultTimeout: i32): (t: i32)
    ensures t > 0 <==> expireTimeout > 0 || defaultTimeout > 0
  {
    if expireTimeout < 0 then defaultTimeout
    else if expireTimeout == 0 then defaultTimeout
    else expireTimeout
  }

  /** A transient, non-Critical notification with a positive effective
      timeout is shown but never stored. */
  function IsDropped(n: Notification, defaultTimeout: i32): (dropped: bool)
    ensures dropped <==> n.transient && n.urgency != Critical && (n.expireTimeout > 0 || defaultTimeout > 0)
  {
    n.urgency != Critical && EffectiveTimeout(n.expireTimeout, defaultTimeout) > 0 && n.transient
  }

  /** The list after `Notify(n)`: the old entry with the id removed, then
      `n` inserted at the head and the tail trimmed, unless `n` is dropped. */
  function ApplyNotify(s: seq<Notification>, n: Notification, maxNotifications: nat, defaultTimeout: i32): (r: seq<Notification>)
    ensures IsDropped(n, defaultTimeout) ==> r == RemoveFirst(s, n.id)
    ensures !IsDropped(n, defaultTimeout) ==> |r| <= maxNotifications
    ensures !IsDropped(n, defaultTimeout) && maxNotifications >= 1 ==> |r| >= 1 && r[0] == n
    ensures |r| <= |s| + 1
    ensures forall x :: x in r ==> x in s || x == n
  {
    var rest := RemoveFirst(s, n.id);
    if IsDropped(n, defaultTimeout) then rest
    else
      var inserted := [n] + rest;
      if |inserted| > maxNotifications then inserted[..maxNotifications] else inserted
  }

  /** The list after one domain event. */
  function Apply(s: seq<Notification>, event: NotificationEvent, maxNotifications: nat, defaultTimeout: i32): (r: seq<Notification>)
    ensures event.Closed? ==> forall x :: x in r ==> x in s && x.id != event.id
    ensures event.Notify? ==> forall x :: x in r ==> x in s || x == event.notification
    ensures |r| <= |s| + 1
  {
    match event
    case Notify(n) => ApplyNotify(s, n, maxNotifications, defaultTimeout)
    case Closed(id, _) => WithoutId(s, id)
  }

  class NotificationService {
    var notifications: seq<Notification>
    var maxNotifications: nat
    var defaultTimeout: i32

    constructor (maxNotifications: nat, defaultTimeout: i32)
      ensures this.notifications == []
      ensures this.maxNotifications == maxNotifications && this.defaultTimeout == defaultTimeout
    {
      this.notifications := [];
      this.maxNotifications := maxNotifications;
      this.defaultTimeout := defaultTimeout;
    }

    /** Applies a domain event to the list. */
    method Update(event: NotificationEvent)
      modifies this
      ensures notifications == Apply(old(notifications), event, maxNotifications, defaultTimeout)
      ensures maxNotifications == old(maxNotifications) && defaultTimeout == old(defaultTimeout)
    {
      match event
      case Notify(notification) =>
        var defaultTimeout := this.defaultTimeout;
        var pos := Position(notifications, notification.id);
        if pos < |notifications| {
          notifications := notifications[..pos] + notifications[pos + 1..];
        }
        if notification.urgency != Critical {
          var timeout :=
            if notification.expireTimeout < 0 then defaultTimeout
            else if notification.expireTimeout == 0 then defaultTimeout
            else notification.expireTimeout;
          if timeout > 0 && notification.transient {
            return;
          }
        }
        notifications := [notification] + notifications;
        if |notifications| > maxNotifications {
          notifications := notifications[..maxNotifications];
        }
      case Closed(id, _) =>
        notifications := WithoutId(notifications, id);
    }

    /** `Close(id)` removes like a `Closed(id, _)` event of any reason. */
    method Command(command: NotificationCommand)
      modifies this
      ensures forall reason :: notifications == Apply(old(notifications), Closed(command.id, reason), maxNotifications, defaultTimeout)
      ensures maxNotifications == old(maxNotifications) && defaultTimeout == old(defaultTimeout)
    {
      match command
      case Close(id) =>
        notifications := WithoutId(notifications, id);
    }
  }

  /** Removing the first match takes out exactly that one entry and keeps
      every other entry, including later entries with the same id. */
  lemma RemoveFirstRemovesOne(s: seq<Notification>, id: u32)
    ensures Position(s, id) == |s| ==> RemoveFirst(s, id) == s
    ensures Position(s, id) < |s| ==>
      |RemoveFirst(s, id)| == |s| - 1 &&
      multiset(RemoveFirst(s, id)) + multiset{s[Position(s, id)]} == multiset(s)
  {
    var pos := Position(s, id);
    if pos < |s| {
      var r := RemoveFirst(s, id);
      assert r == s[..pos] + s[pos + 1..];
      assert s == s[..pos] + [s[pos]] + s[pos + 1..];
      calc {
        multiset(s);
        multiset(s[..pos]) + multiset{s[pos]} + multiset(s[pos + 1..]);
        multiset(r) + multiset{s[pos]};
      }
    }
  }

  /** On a list with unique ids, removing the first match leaves no entry
      with that id and keeps the ids unique. */
  lemma RemoveFirstOfUnique(s: seq<Notification>, id: u32)
    requires UniqueIds(s)
    ensures UniqueIds(RemoveFirst(s, id))
    ensures forall x :: x in RemoveFirst(s, id) ==> x.id != id
  {
    var pos := Position(s, id);
    var r := RemoveFirst(s, id);
    if pos < |s| {
      assert forall i :: 0 <= i < |r| ==> r[i] == if i < pos then s[i] else s[i + 1];
      forall x | x in r ensures x.id != id {
        var i :| 0 <= i < |r| && r[i] == x;
        if i < pos { assert s[i].id != s[pos].id; } else { assert s[pos].id != s[i + 1].id; }
      }
    }
  }

  /** The ids of a list with unique ids stay unique under any filter. */
  lemma {:induction false} FilterOfUnique(s: seq<Notification>, keep: Notification -> bool)
    requires UniqueIds(s)
    ensures UniqueIds(Filter(s, keep))
    decreases |s|
  {
    if s != [] {
      var init, last := s[..|s| - 1], s[|s| - 1];
      FilterOfUnique(init, keep);
      var f := Filter(init, keep);
      forall x | x in f ensures x.id != last.id {
        var k :| 0 <= k < |init| && init[k] == x;
        assert s[k].id != s[|s| - 1].id;
      }
    }
  }

  /** A stored `Notify(n)` puts `n` at the head of the list, and when ids
      were unique before, `n.id` appears nowhere else and ids stay unique.
      Only tail entries are cut to respect `max_notifications`. */
  lemma StoredNotifyIsNewest(s: seq<Notification>, n: Notification, maxNotifications: nat, defaultTimeout: i32)
    requires !IsDropped(n, defaultTimeout)
    requires maxNotifications >= 1
    requires UniqueIds(s)
    ensures var r := ApplyNotify(s, n, maxNotifications, defaultTimeout);
      && r[0] == n
      && (forall j :: 0 < j < |r| ==> r[j].id != n.id)
      && UniqueIds(r)
      && |r| <= maxNotifications
      && r <= [n] + RemoveFirst(s, n.id)
  {
    var rest := RemoveFirst(s, n.id);
    RemoveFirstOfUnique(s, n.id);
    var r := ApplyNotify(s, n, maxNotifications, defaultTimeout);
    var inserted := [n] + rest;
    assert forall j :: 0 < j < |inserted| ==> inserted[j] == rest[j - 1];
    assert forall j :: 0 < j < |inserted| ==> inserted[j].id != n.id;
    assert UniqueIds(inserted);
  }

  /** Whatever the timeouts, a stored `Notify` leaves the list within
      `max_notifications`, and the survivors are a prefix (newest first)
      of the list with the new entry at its head. */
  lemma StoredNotifyBounded(s: seq<Notification>, n: Notification, maxNotifications: nat, defaultTimeout: i32)
    requires !IsDropped(n, defaultTimeout)
    ensures var r := ApplyNotify(s, n, maxNotifications, defaultTimeout);
      && |r| <= maxNotifications
      && r <= [n] + RemoveFirst(s, n.id)
      && (r == [n] + RemoveFirst(s, n.id) || |r| == maxNotifications)
      && (|s| < maxNotifications ==> r == [n] + RemoveFirst(s, n.id))
  {
    RemoveFirstRemovesOne(s, n.id);
  }

  /** A Critical or a non-transient notification is always stored. A dropped
      one still removes the prior entry with its id. */
  lemma TransientRule(s: seq<Notification>, n: Notification, maxNotifications: nat, defaultTimeout: i32)
    requires UniqueIds(s)
    ensures n.urgency == Critical || !n.transient ==> !IsDropped(n, defaultTimeout)
    ensures IsDropped(n, defaultTimeout) <==>
      n.transient && n.urgency != Critical && (n.expireTimeout > 0 || defaultTimeout > 0)
    ensures IsDropped(n, defaultTimeout) ==>
      var r := ApplyNotify(s, n, maxNotifications, defaultTimeout);
      r == RemoveFirst(s, n.id) && forall x :: x in r ==> x.id != n.id
  {
    RemoveFirstOfUnique(s, n.id);
  }

  /** `Closed(id, _)` removes every entry with that id and only those,
      keeps the others in order, ignores the reason, and is idempotent; on
      an unknown id it changes nothing. */
  lemma ClosedRemovesEveryMatch(s: seq<Notification>, id: u32, reason: CloseReason, other: CloseReason, maxNotifications: nat, defaultTimeout: i32)
    ensures var r := Apply(s, Closed(id, reason), maxNotifications, defaultTimeout);
      && (forall x :: x in r ==> x in s && x.id != id)
      && (forall x :: x in s && x.id != id ==> x in r)
      && r == Apply(s, Closed(id, other), maxNotifications, defaultTimeout)
      && Apply(r, Closed(id, other), maxNotifications, defaultTimeout) == r
      && ((forall x :: x in s ==> x.id != id) ==> r == s)
  {
    var keep := (n: Notification) => n.id != id;
    var r := Filter(s, keep);
    forall x | x in s && x.id != id ensures x in r {
      FilterKeeps(s, keep, x);
    }
    FilterUnchanged(r, keep);
    FilterUnchanged(s, keep);
  }

  /** Every domain event keeps the ids of the list unique. */
  lemma ApplyPreservesUnique(s: seq<Notification>, event: NotificationEvent, maxNotifications: nat, defaultTimeout: i32)
    requires UniqueIds(s)
    ensures UniqueIds(Apply(s, event, maxNotifications, defaultTimeout))
  {
    match event
    case Notify(n) =>
      RemoveFirstOfUnique(s, n.id);
      if !IsDropped(n, defaultTimeout) && maxNotifications >= 1 {
        StoredNotifyIsNewest(s, n, maxNotifications, defaultTimeout);
      }
    case Closed(id, _) =>
      FilterOfUnique(s, (n: Notification) => n.id != id);
  }
}
