/** The bar module that owns the notification list once the service has
    started: it installs the service, forwards domain events and the user's
    dismiss / clear-all clicks to it, and keeps the unread badge count. */
module NotificationsModule {
  import Common
  import opened Service
  import opened Config

  /** What the service subscription delivers: the started service, a domain
      event for it, or a failure (whose payload carries nothing). */
  datatype ServiceEvent = Init(service: NotificationService) | Update(event: NotificationEvent) | Error

  datatype Message = Event(serviceEvent: ServiceEvent) | Dismiss(id: Common.u32) | ClearAll | MenuOpened

  /** What `update` asks the runtime to do next; the task a `Command` would
      carry is not modelled, and `update` never produces one. */
  datatype Action = None | Command

  /** Whether `m` is a domain `Notify` event. */
  predicate IsNotify(m: Message)
  {
    m.Event? && m.serviceEvent.Update? && m.serviceEvent.event.Notify?
  }

  /** Whether `m` clears the unread badge. */
  predicate IsReset(m: Message)
  {
    m.ClearAll? || m.MenuOpened?
  }

  /** The unread count after `m`, given whether a service is installed: a
      `Notify` event counts only once the service is there. */
  function NextUnread(count: nat, m: Message, hasService: bool): (next: nat)
    ensures IsReset(m) ==> next == 0
    ensures IsNotify(m) && hasService ==> next == count + 1
    ensures !IsReset(m) && !(IsNotify(m) && hasService) ==> next == count
  {
    if IsReset(m) then 0
    else if IsNotify(m) && hasService then count + 1
    else count
  }

  /** The unread count after each message of `msgs` in turn, with a service
      installed throughout. */
  function UnreadAfter(count: nat, msgs: seq<Message>): (r: nat)
    ensures r <= count + NotifyCount(msgs)
    decreases |msgs|
  {
    if msgs == [] then count
    else UnreadAfter(NextUnread(count, msgs[0], true), msgs[1..])
  }

  /** How many of `msgs` are `Notify` events. */
  function NotifyCount(msgs: seq<Message>): (k: nat)
    ensures k <= |msgs|
    decreases |msgs|
  {
    if msgs == [] then 0
    else (if IsNotify(msgs[0]) then 1 else 0) + NotifyCount(msgs[1..])
  }

  /** The badge counts exactly the `Notify` events since the last reset. */
  lemma {:induction false} UnreadCountsNotifies(count: nat, msgs: seq<Message>)
    ensures (forall i :: 0 <= i < |msgs| ==> !IsReset(msgs[i])) ==> UnreadAfter(count, msgs) == count + NotifyCount(msgs)
    ensures forall i :: 0 <= i < |msgs| && IsReset(msgs[i]) && (forall j :: i < j < |msgs| ==> !IsReset(msgs[j])) ==>
      UnreadAfter(count, msgs) == NotifyCount(msgs[i + 1..])
    decreases |msgs|
  {
    if msgs != [] {
      UnreadCountsNotifies(NextUnread(count, msgs[0], true), msgs[1..]);
      assert forall i :: 1 <= i < |msgs| ==> msgs[i] == msgs[1..][i - 1] && msgs[i + 1..] == msgs[1..][i..];
      if IsReset(msgs[0]) {
        assert UnreadAfter(count, msgs) == UnreadAfter(0, msgs[1..]);
      }
    }
  }

  class Notifications {
    const config: NotificationsModuleConfig
    var service: NotificationService?
    var unreadCount: nat

    constructor (config: NotificationsModuleConfig)
      ensures this.config == config && service == null && unreadCount == 0
    {
      this.config := config;
      service := null;
      unreadCount := 0;
    }

    method Update(message: Message) returns (action: Action)
      modifies this, service
      ensures action == None
      ensures unreadCount == NextUnread(old(unreadCount), message, old(service) != null)
      ensures message.Event? && message.serviceEvent.Init? ==> service == message.serviceEvent.service
      ensures !(message.Event? && message.serviceEvent.Init?) ==> service == old(service)
      ensures old(service) != null && message.Event? && message.serviceEvent.Update? ==>
        service.notifications == Apply(old(service.notifications), message.serviceEvent.event,
                                       service.maxNotifications, service.defaultTimeout)
      ensures old(service) != null && message.Dismiss? ==>
        service.notifications == WithoutId(old(service.notifications), message.id)
      ensures old(service) != null && message.ClearAll? ==> service.notifications == []
      ensures old(service) != null && (message.MenuOpened? || (message.Event? && message.serviceEvent.Error?)) ==>
        service.notifications == old(service.notifications)
      ensures old(service) != null && !(message.Event? && message.serviceEvent.Init?) ==>
        service.maxNotifications == old(service.maxNotifications) && service.defaultTimeout == old(service.defaultTimeout)
    {
      match message {
        case Event(serviceEvent) =>
          match serviceEvent {
            case Init(s) =>
              service := s;
            case Update(event) =>
              if service != null {
                if event.Notify? {
                  unreadCount := unreadCount + 1;
                }
                service.Update(event);
              }
            case Error =>
          }
        case Dismiss(id) =>
          if service != null {
            service.Command(Close(id));
            assert service.notifications == Apply(old(service.notifications), Closed(id, ByApi),
                                                  service.maxNotifications, service.defaultTimeout);
          }
        case ClearAll =>
          if service != null {
            service.notifications := [];
          }
          unreadCount := 0;
        case MenuOpened =>
          unreadCount := 0;
      }
      action := None;
    }
  }
}
