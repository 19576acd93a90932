/** The inbound side of the Desktop Notifications Specification 1.2 ("D-BUS
    Protocol", "Urgency Levels", "Hints"): id allocation, hint decoding,
    action pairing and the auto-expiry decision. The bus, the event channel
    and the timer task are not modelled; what they would carry is returned
    as values (the domain event, the scheduled close). */
module Daemon {
  import opened Common
  import opened Service

  const BusName: string := "org.freedesktop.Notifications"
  const ObjectPath: string := "/org/freedesktop/Notifications"

  /** A hint value as received in the `a{sv}` hint map; only the variants
      the daemon inspects are told apart. */
  datatype HintValue = U8(byte: u8) | Bool(flag: bool) | I32(number: i32) | Str(text: string) | OtherValue

  /** The outbound signals. */
  datatype Signal = NotificationClosed(id: u32, reason: u32) | ActionInvoked(id: u32, actionKey: string)

  /** The one-shot timer `Notify` spawns: after `delayMs` it delivers
      `event` to the service and emits `signal` on the bus. */
  datatype ExpiryTimer = ExpiryTimer(delayMs: nat, event: NotificationEvent, signal: Signal)

  /** The counter after handing out `current`: `wrapping_add(1).max(1)`. */
  function NextId(current: u32): (next: u32)
    ensures next != 0
    ensures current < U32_MAX ==> next == current + 1
    ensures current == U32_MAX ==> next == 1
  {
    var wrapped := (current + 1) % 0x1_0000_0000;
    if wrapped < 1 then 1 else wrapped
  }

  /** The id a `Notify` call returns and the counter afterwards. */
  function AllocateId(replacesId: u32, nextId: u32): (r: (u32, u32))
    ensures replacesId > 0 ==> r == (replacesId, nextId)
    ensures replacesId == 0 ==> r.0 == nextId && r.1 == (if nextId == U32_MAX then 1 else nextId + 1)
  {
    if replacesId > 0 then (replacesId, nextId)
    else (nextId, NextId(nextId))
  }

  /** The ids handed out by `count` successive `Notify` calls with
      `replaces_id == 0`, starting from counter value `nextId`. */
  function Allocations(nextId: u32, count: nat): (ids: seq<u32>)
    ensures |ids| == count
    decreases count
  {
    if count == 0 then []
    else [AllocateId(0, nextId).0] + Allocations(AllocateId(0, nextId).1, count - 1)
  }

  /** From a counter that is not 0 (it starts at 1), no allocation ever
      yields 0, across wrap-arounds too. */
  lemma {:induction false} AllocationsNeverZero(nextId: u32, count: nat)
    requires nextId != 0
    ensures forall i :: 0 <= i < count ==> Allocations(nextId, count)[i] != 0
    decreases count
  {
    if count > 0 {
      AllocationsNeverZero(NextId(nextId), count - 1);
    }
  }

  /** Until the counter wraps, successive allocations are consecutive, so
      strictly increasing and pairwise distinct. */
  lemma {:induction false} AllocationsIncrease(nextId: u32, count: nat)
    requires 1 <= nextId
    requires nextId + count - 1 <= U32_MAX
    ensures forall i :: 0 <= i < count ==> Allocations(nextId, count)[i] == nextId + i
    ensures forall i, j :: 0 <= i < j < count ==> Allocations(nextId, count)[i] < Allocations(nextId, count)[j]
    decreases count
  {
    if count > 1 {
      AllocationsIncrease(nextId + 1, count - 1);
    }
  }

  /** The `urgency` hint: byte 0 is Low, byte 2 is Critical, every other
      byte, a missing key and a non-byte value are Normal. */
  function ParseUrgency(hints: map<string, HintValue>): (u: Urgency)
    ensures u == Low <==> "urgency" in hints && hints["urgency"] == U8(0)
    ensures u == Critical <==> "urgency" in hints && hints["urgency"] == U8(2)
  {
    if "urgency" in hints && hints["urgency"].U8? then
      match hints["urgency"].byte
      case 0 => Low
      case 2 => Critical
      case _ => Normal
    else Normal
  }

  /** The byte the Urgency Levels section assigns to each level. */
  function UrgencyByte(u: Urgency): (b: u8)
    ensures b <= 2
  {
    match u
    case Low => 0
    case Normal => 1
    case Critical => 2
  }

  lemma UrgencyHintRoundTrip(u: Urgency, hints: map<string, HintValue>)
    ensures ParseUrgency(hints["urgency" := U8(UrgencyByte(u))]) == u
  {
  }

  /** The `transient` hint: a boolean value is taken as is; a missing key or
      any other value means false. */
  function ParseTransient(hints: map<string, HintValue>): (b: bool)
    ensures b <==> "transient" in hints && hints["transient"] == Bool(true)
  {
    if "transient" in hints && hints["transient"].Bool? then hints["transient"].flag else false
  }

  /** The flat `actions` array read two at a time as (key, label); a
      trailing unpaired element is dropped. */
  function PairActions(actions: seq<string>): (pairs: seq<(string, string)>)
    ensures |pairs| == |actions| / 2
    ensures forall i :: 0 <= i < |pairs| ==> pairs[i] == (actions[2 * i], actions[2 * i + 1])
  {
    if |actions| < 2 then []
    else [(actions[0], actions[1])] + PairActions(actions[2..])
  }

  /** The flat array a client sends for a list of actions. */
  function FlattenActions(pairs: seq<(string, string)>): (flat: seq<string>)
    ensures |flat| == 2 * |pairs|
  {
    if pairs == [] then []
    else [pairs[0].0, pairs[0].1] + FlattenActions(pairs[1..])
  }

  /** Pairing undoes flattening, and flattening the pairs gives back the
      array without its unpaired last element. */
  lemma {:induction false} PairActionsRoundTrip(pairs: seq<(string, string)>, actions: seq<string>)
    ensures PairActions(FlattenActions(pairs)) == pairs
    ensures FlattenActions(PairActions(actions)) == actions[..2 * (|actions| / 2)]
    decreases |pairs| + |actions|
  {
    if pairs != [] {
      var flat := FlattenActions(pairs);
      assert flat[2..] == FlattenActions(pairs[1..]);
      PairActionsRoundTrip(pairs[1..], []);
    }
    if |actions| >= 2 {
      PairActionsRoundTrip([], actions[2..]);
      assert actions[..2 * (|actions| / 2)] == actions[..2] + actions[2..][..2 * (|actions[2..]| / 2)];
    }
  }

  /** How long until a notification expires on its own: never for Critical;
      otherwise the default for a negative `expire_timeout`, never for 0, the
      given milliseconds for a positive one. Only a positive delay is a timer. */
  function ExpiryDelay(urgency: Urgency, expireTimeout: i32, defaultTimeout: i32): (delay: Option<nat>)
    ensures urgency == Critical ==> delay == None
    ensures delay.Some? ==> delay.value > 0
    ensures urgency != Critical && expireTimeout > 0 ==> delay == Some(expireTimeout)
    ensures expireTimeout == 0 ==> delay == None
    ensures urgency != Critical && expireTimeout < 0 ==> (delay.Some? <==> defaultTimeout > 0)
    ensures delay.Some? && expireTimeout < 0 ==> delay.value == defaultTimeout
  {
    if urgency == Critical then None
    else
      var timeoutMs := if expireTimeout < 0 then defaultTimeout else if expireTimeout == 0 then 0 else expireTimeout;
      if timeoutMs > 0 then Some(timeoutMs) else None
  }

  /** The timer `Notify` schedules for notification `id`, if any; on firing
      it closes the notification as Expired, reason code 1. */
  function ExpiryTimerFor(id: u32, urgency: Urgency, expireTimeout: i32, defaultTimeout: i32): (timer: Option<ExpiryTimer>)
    ensures timer.Some? <==> ExpiryDelay(urgency, expireTimeout, defaultTimeout).Some?
    ensures timer.Some? ==>
      && timer.value.delayMs == ExpiryDelay(urgency, expireTimeout, defaultTimeout).value
      && timer.value.event == Closed(id, Expired)
      && timer.value.signal == NotificationClosed(id, 1)
  {
    match ExpiryDelay(urgency, expireTimeout, defaultTimeout)
    case None => None
    case Some(ms) => Some(ExpiryTimer(ms, Closed(id, Expired), NotificationClosed(id, ReasonCode(Expired))))
  }

  /** A transient notification that gets an expiry timer is one the list
      never stores, and when the timer fires the list loses the id. */
  lemma ScheduledTransientIsNotRetained(s: seq<Notification>, n: Notification, maxNotifications: nat, defaultTimeout: i32)
    requires ExpiryDelay(n.urgency, n.expireTimeout, defaultTimeout).Some?
    ensures n.transient ==> IsDropped(n, defaultTimeout)
    ensures var fired := ExpiryTimerFor(n.id, n.urgency, n.expireTimeout, defaultTimeout).value.event;
      forall x :: x in Apply(s, fired, maxNotifications, defaultTimeout) ==> x.id != n.id
  {
    ClosedRemovesEveryMatch(s, n.id, Expired, Expired, maxNotifications, defaultTimeout);
  }

  /** `CloseNotification(id)`: a `Closed(id, ByApi)` event and the
      NotificationClosed signal with reason code 3. */
  function CloseNotification(id: u32): (r: (NotificationEvent, Signal))
    ensures r.0 == Closed(id, ByApi)
    ensures r.1 == NotificationClosed(id, 3)
  {
    (Closed(id, ByApi), NotificationClosed(id, ReasonCode(ByApi)))
  }

  /** The capabilities the server advertises. */
  function GetCapabilities(): (caps: seq<string>)
    ensures |caps| == 3 && "body" in caps && "body-markup" in caps && "actions" in caps
  {
    ["body", "body-markup", "actions"]
  }

  /** Name, vendor, version and specification version; `version` is the
      package version fixed at build time. */
  function GetServerInformation(version: string): (info: (string, string, string, string))
    ensures info.2 == version && info.3 == "1.2"
  {
    ("ashell", "ashell", version, "1.2")
  }

  class NotificationDaemon {
    var nextId: u32
    const defaultTimeout: i32

    /** The counter is never 0, so an allocated id never is. */
    ghost predicate Valid()
      reads this
    {
      nextId != 0
    }

    constructor (defaultTimeout: i32)
      ensures Valid()
      ensures nextId == 1 && this.defaultTimeout == defaultTimeout
    {
      nextId := 1;
      this.defaultTimeout := defaultTimeout;
    }

    /** Handles a `Notify` call: returns the id, the `Notify` domain event
        for the service and the expiry timer to schedule, if any. */
    method Notify(appName: string, replacesId: u32, appIcon: string, summary: string, body: string,
                  actions: seq<string>, hints: map<string, HintValue>, expireTimeout: i32, timestamp: LocalTime)
      returns (id: u32, event: NotificationEvent, timer: Option<ExpiryTimer>)
      requires Valid()
      modifies this
      ensures Valid()
      ensures id != 0
      ensures (id, nextId) == AllocateId(replacesId, old(nextId))
      ensures event == Service.Notify(Notification(id, appName, appIcon, summary, body, PairActions(actions),
                                                   ParseUrgency(hints), expireTimeout, timestamp, ParseTransient(hints)))
      ensures timer == ExpiryTimerFor(id, ParseUrgency(hints), expireTimeout, defaultTimeout)
    {
      if replacesId > 0 {
        id := replacesId;
      } else {
        id := nextId;
        nextId := NextId(nextId);
      }
      var urgency := ParseUrgency(hints);
      var transient := ParseTransient(hints);
      var parsedActions := PairActions(actions);
      var notification := Notification(id, appName, appIcon, summary, body, parsedActions, urgency, expireTimeout, timestamp, transient);
      event := Service.Notify(notification);
      timer := None;
      if urgency != Critical {
        var timeoutMs := if expireTimeout < 0 then defaultTimeout else if expireTimeout == 0 then 0 else expireTimeout;
        if timeoutMs > 0 {
          timer := Some(ExpiryTimer(timeoutMs, Closed(id, Expired), NotificationClosed(id, ReasonCode(Expired))));
        }
      }
    }
  }
}
