# ashell notifications, modelled in Dafny

ashell is a Wayland status bar. It is also the session's notification server:
it owns the `org.freedesktop.Notifications` bus name and implements the
inbound side of the Desktop Notifications Specification 1.2. This project
models the sequential logic behind that feature and proves what it promises:

- **Daemon** (`daemon.dfy`, from `src/services/notifications/dbus.rs`).
  `Notify` allocates ids from a wrapping `u32` counter that never yields 0.
  It decodes the `urgency` and `transient` hints, pairs the flat actions
  array and decides whether an expiry timer is scheduled.
  `CloseNotification`, `GetCapabilities` and `GetServerInformation` answer
  with fixed values. The bus, the event channel and the timer task become
  returned values: the domain event, the scheduled close and its signal.
- **Retained list** (`service.dfy`, from `src/services/notifications/mod.rs`).
  `NotificationService` is a class whose `notifications` sequence is changed
  in place by `Update` and `Command`. Each method is proved equal to the pure
  transition `Apply`. Lemmas about `Apply` cover:
  - replace-by-id and insert at the head;
  - trimming from the tail;
  - the transient drop rule;
  - idempotent removal by id;
  - preservation of unique ids.
- **Popup queue** (`popup.dfy`, from `src/popup.rs`). `PopupState` holds the
  popup entries, each in phase SlideIn, Display or SlideOut.
  - `Enqueue` keeps the source's `while` loop and `Tick` its `for` loop.
  - Both are proved against specification functions; eviction, phase
    advance and removal are characterised by lemmas.
  - Progress, easing and surface height are functions over `real`.
  - Time is a natural number of milliseconds passed in as `now`.
- **Bar module** (`notifications_module.dfy`, from
  `src/modules/notifications.rs`). The `Notifications` class holds the
  optional service and the unread badge count, and `Update` dispatches a
  message. A lemma shows that, once the service is installed, the badge
  counts exactly the `Notify` events since the last reset.
- **Text utilities** (`utils.dfy`, from `src/utils/mod.rs`):
  - character-safe and middle-ellipsis truncation;
  - the `"{h}h {m:>2}m"` duration label, with a parser that reads it back;
  - markup stripping, where the regex `<[^>]+>` is spelled out as a
    left-to-right scanner.

`common.dfy` holds `Option`, the integer ranges and `Filter`, which is
`Vec::retain`. `config.dfy` holds the configuration record.

`Service.FilterOfUnique` and `Popup.FilterOfUniqueEntries` prove the same
fact, that `retain` keeps ids unique, once for notifications and once for
popup entries. Uniqueness is stated on each module's own element type
(`Notification` ids, and the ids of the notifications inside popup
entries), so each module proves it over its own type rather than through a
generic predicate with a key function.

Transient notifications are stored unless they are not Critical and their
effective timeout is positive (`src/services/notifications/mod.rs:189-201`).
A timeout of 0 and a negative one both fall back to `default_timeout`, so a
transient notification with neither a positive timeout nor a positive
default is kept in the list like any other.

## Model

| member | source | states |
|---|---|---|
| Service.ReasonCode | src/services/notifications/mod.rs:37-41 | close reason codes lie in 1..3 |
| Service.ReasonCodeRoundTrip | src/services/notifications/mod.rs:37-41 | Expired, Dismissed and ByApi have distinct codes: decoding a reason's code gives the reason back |
| Service.Position | src/services/notifications/mod.rs:180-186 | the index of the first notification with the id, or the length when there is none |
| Service.RemoveFirst | src/services/notifications/mod.rs:180-186 | `remove(pos)` of the first match drops at most one entry and introduces none |
| Service.WithoutId | src/services/notifications/mod.rs:211-213 | `retain` by id keeps only entries of the list whose id differs |
| Service.IsDropped | src/services/notifications/mod.rs:189-201 | dropped iff transient, not Critical, and with a positive own or default timeout |
| Service.ApplyNotify | src/services/notifications/mod.rs:180-209 | a dropped notification only removes its old entry; a stored one is at the head of a list at most the limit long; nothing but the notification is new |
| Service.Apply | src/services/notifications/mod.rs:174-215 | Closed leaves only old entries without the id; Notify adds nothing but the notification; the list grows by at most one |
| Service.EffectiveTimeout | src/services/notifications/mod.rs:189-197 | the effective timeout is positive exactly when expire_timeout or default_timeout is |
| Service.NotificationService.constructor | src/services/notifications/mod.rs:62-68 | a new service has an empty list and the given limit and default timeout |
| Service.NotificationService.Update | src/services/notifications/mod.rs:174-215 | the list becomes the Apply transition of the old list and the event; limit and default timeout unchanged |
| Service.NotificationService.Command | src/services/notifications/mod.rs:225-232 | Close(id) has the list effect of Closed(id, reason) for every reason |
| Service.RemoveFirstRemovesOne | src/services/notifications/mod.rs:180-186 | only the first match is removed: one element fewer and the same multiset less that element; an absent id changes nothing |
| Service.RemoveFirstOfUnique | src/services/notifications/mod.rs:180-186 | with unique ids, removing the first match removes the id entirely and keeps ids unique |
| Service.FilterOfUnique | src/services/notifications/mod.rs:211-213 | retain keeps ids unique |
| Service.StoredNotifyIsNewest | src/services/notifications/mod.rs:180-209 | a stored notification is at the head, no other entry has its id, ids stay unique, the length is at most the limit and the rest is a prefix of the old list without that id |
| Service.StoredNotifyBounded | src/services/notifications/mod.rs:204-209 | after insertion the list is at most the limit long, trimming drops only the tail, and nothing is trimmed while the old list was below the limit |
| Service.TransientRule | src/services/notifications/mod.rs:189-204 | a notification is dropped iff transient, not Critical and with positive effective timeout; a dropped one still removes the prior entry with its id; Critical and non-transient ones are always inserted |
| Service.ClosedRemovesEveryMatch | src/services/notifications/mod.rs:211-213 | Closed removes every entry with the id and keeps all others, ignores the reason, is idempotent and leaves a list without the id unchanged |
| Service.ApplyPreservesUnique | src/services/notifications/mod.rs:174-215 | every event preserves unique ids |
| Common.Filter | src/services/notifications/mod.rs:211-213 | retain keeps only elements of the input that satisfy the predicate, never lengthening it |
| Common.FilterAppend | src/popup.rs:99-107 | retain over a concatenation is the concatenation of the retains |
| Common.FilterUnchanged | src/popup.rs:108-110 | retain leaves the sequence unchanged iff every element is kept |
| Common.FilterShrinks | src/popup.rs:108-110 | retain shortens the sequence iff some element is rejected |
| Daemon.NextId | src/services/notifications/dbus.rs:48-51 | the counter after an allocation is never 0; it is the successor, or 1 after u32::MAX |
| Daemon.AllocateId | src/services/notifications/dbus.rs:46-52 | a positive replaces_id is returned and leaves the counter alone; otherwise the counter's value is returned and the counter becomes its successor, or 1 after u32::MAX |
| Daemon.AllocationsNeverZero | src/services/notifications/dbus.rs:18-24 | from a nonzero counter no allocation ever yields 0, across wrap-around |
| Daemon.AllocationsIncrease | src/services/notifications/dbus.rs:48-51 | before the counter wraps, successive ids are consecutive, hence strictly increasing and distinct |
| Daemon.ParseUrgency | src/services/notifications/dbus.rs:54-65 | byte 0 gives Low and byte 2 gives Critical, and only those; any other byte, a missing key or another value type gives Normal |
| Daemon.UrgencyByte | src/services/notifications/dbus.rs:54-65 | urgency levels are encoded as bytes 0..2 |
| Daemon.UrgencyHintRoundTrip | src/services/notifications/dbus.rs:54-65 | decoding the urgency hint of a level's byte gives that level back |
| Daemon.ParseTransient | src/services/notifications/dbus.rs:67-73 | transient iff the hint is present and is Bool(true) |
| Daemon.PairActions | src/services/notifications/dbus.rs:75-84 | the i-th action is (a[2i], a[2i+1]) for i below half the length; an unpaired last element is dropped |
| Daemon.FlattenActions | src/services/notifications/dbus.rs:75-84 | a list of actions flattens to twice its length |
| Daemon.PairActionsRoundTrip | src/services/notifications/dbus.rs:75-84 | pairing undoes flattening, and flattening the pairs gives the array without its unpaired last element |
| Daemon.ExpiryDelay | src/services/notifications/dbus.rs:107-125 | no expiry for Critical or a 0 timeout; a positive timeout is used as is; a negative one uses the default when that is positive; a delay is always positive |
| Daemon.ExpiryTimerFor | src/services/notifications/dbus.rs:107-142 | a timer exists exactly when the delay does, and on firing it delivers Closed(id, Expired) and signals reason 1 |
| Daemon.ScheduledTransientIsNotRetained | src/services/notifications/dbus.rs:107-142 | a transient notification that gets a timer is one the list drops, and the fired timer removes the id from any list |
| Daemon.CloseNotification | src/services/notifications/dbus.rs:147-158 | closing yields Closed(id, ByApi) and the signal with reason 3 |
| Daemon.GetCapabilities | src/services/notifications/dbus.rs:29-31 | exactly body, body-markup and actions |
| Daemon.GetServerInformation | src/services/notifications/dbus.rs:160-162 | the reported specification version is 1.2 and the version is the build's |
| Daemon.NotificationDaemon.constructor | src/services/notifications/dbus.rs:18-24 | the counter starts at 1 |
| Daemon.NotificationDaemon.Notify | src/services/notifications/dbus.rs:34-145 | the returned id is never 0 and follows AllocateId; the event carries the decoded notification; the timer is ExpiryTimerFor the id |
| NotificationsModule.NextUnread | src/modules/notifications.rs:53-80 | ClearAll and MenuOpened reset the count; a Notify with a service counts one; everything else leaves it |
| NotificationsModule.UnreadAfter | src/modules/notifications.rs:53-80 | with a service installed, a run of messages raises the count by at most its Notify events |
| NotificationsModule.NotifyCount | src/modules/notifications.rs:53-60 | the number of Notify events is at most the number of messages |
| NotificationsModule.UnreadCountsNotifies | src/modules/notifications.rs:53-80 | the badge equals the start plus the Notify events when nothing resets it, and otherwise the Notify events after the last reset |
| NotificationsModule.Notifications.constructor | src/modules/notifications.rs:38-44 | no service and a zero count |
| NotificationsModule.Notifications.Update | src/modules/notifications.rs:46-82 | returns None; the count follows NextUnread; Init installs the service; Update applies the event when a service exists; Dismiss removes the id; ClearAll empties the list; MenuOpened and Error leave it |
| Popup.Elapsed | src/popup.rs:77 | the saturating elapsed time since a phase start |
| Popup.ToSlideOut | src/popup.rs:62-63 | an entry forced out is SlideOut from now and otherwise unchanged |
| Popup.CountActive | src/popup.rs:54 | the count of non-SlideOut entries never exceeds the length |
| Popup.CountActiveAppend | src/popup.rs:54 | the active count of a concatenation is the sum |
| Popup.CountActiveZero | src/popup.rs:201-210 | no entry is active iff every entry is SlideOut |
| Popup.FirstActive | src/popup.rs:57-60 | the index of the first non-SlideOut entry, which exists iff some entry is active |
| Popup.FindById | src/popup.rs:117 | the index of the first entry with the id, or the length |
| Popup.EvictOldest | src/popup.rs:54-67 | eviction never changes the length |
| Popup.EvictOldestAt | src/popup.rs:54-67 | an entry is forced out iff it is active and fewer than k active entries precede it |
| Popup.EvictOldestNone | src/popup.rs:54-56 | evicting none changes nothing |
| Popup.EvictOldestCompose | src/popup.rs:54-67 | evicting j then k oldest is evicting j+k |
| Popup.EvictFirstActive | src/popup.rs:57-63 | one loop iteration, forcing out the first active entry, is evicting one |
| Popup.EvictOldestCount | src/popup.rs:54-67 | evicting k leaves max(active - k, 0) active entries |
| Popup.EnqueueResult | src/popup.rs:40-68 | enqueue leaves one entry more than the entries without the new id, so at most one more than before |
| Popup.TickResult | src/popup.rs:71-113 | tick never lengthens the list and leaves no finished exit |
| Popup.DismissResult | src/popup.rs:115-121 | dismiss keeps length and notifications; an entry that changed is SlideOut from now |
| Popup.TickPreservesUnique | src/popup.rs:71-113 | tick keeps entry ids unique |
| Popup.DismissPreservesUnique | src/popup.rs:115-121 | dismiss keeps entry ids unique |
| Popup.Advance | src/popup.rs:78-96 | an entry moves at most one phase, resetting its start to now, exactly when its phase is due |
| Popup.AdvanceAll | src/popup.rs:76-97 | the phase pass advances every entry independently and keeps the length |
| Popup.PopupState.constructor | src/popup.rs:27-33 | empty entries and the configured limit and animation time |
| Popup.PopupState.UpdateConfig | src/popup.rs:35-38 | new limit and animation time; entries unchanged |
| Popup.PopupState.Enqueue | src/popup.rs:40-68 | the entries become EnqueueResult: same-id entries removed, the new entry pushed, oldest active entries evicted |
| Popup.PopupState.Tick | src/popup.rs:71-113 | the entries become TickResult; the result is true iff some phase was due or the length changed |
| Popup.PopupState.Dismiss | src/popup.rs:115-121 | the entries become DismissResult |
| Popup.PopupState.IsActive | src/popup.rs:123-125 | active iff there are entries |
| Popup.PopupState.EntryProgressAt | src/popup.rs:179-194 | progress lies in 0..1 and is 1 while displaying |
| Popup.PopupState.EntryProgressStaggeredAt | src/popup.rs:146-170 | 1 while displaying; the unstaggered progress when leaving; 1 once stagger plus animation time have passed |
| Popup.PopupState.MaxProgress | src/popup.rs:212-216 | the fold lies in 0..1 and is 0 on no entries |
| Popup.PopupState.BubbleProgressAt | src/popup.rs:134-139 | bubble progress lies in 0..1 and is 0 with no entries |
| Popup.PopupState.TargetSurfaceHeightAt | src/popup.rs:200-222 | 80k+16 with k > 0 active entries, 0 with none, and never above the full stack height |
| Popup.Ratio | src/popup.rs:161 | the clamped animation fraction lies in 0..1 and is 1 once the animation time has passed |
| Popup.StackHeight | src/popup.rs:209 | a stack is at least 16 high |
| Popup.StackHeightMonotone | src/popup.rs:209 | more entries give a taller stack |
| Popup.EnqueueNewestLast | src/popup.rs:40-51 | the new entry is last with its display time, no other entry has its id, and it is SlideIn from now when the limit is at least 1 |
| Popup.EnqueueKeepsOthers | src/popup.rs:42-46 | other entries keep their order and content apart from being forced out; only same-id entries are removed |
| Popup.EnqueueEvictsEarliest | src/popup.rs:54-67 | at most max_visible entries stay active, and exactly the earliest active entries, as many as the surplus, are forced out; SlideOut entries are untouched |
| Popup.EnqueuePreservesUnique | src/popup.rs:40-68 | enqueue keeps entry ids unique |
| Popup.FilterOfUniqueEntries | src/popup.rs:42-43 | retain keeps entry ids unique |
| Popup.TickRemovesExactlyFinished | src/popup.rs:99-112 | after the phase pass exactly the SlideOut entries whose exit finished are removed, in order; the length shrinks iff one was |
| Popup.LifecycleExample | src/popup.rs:705-750 | one entry goes SlideIn, Display, SlideOut and is removed as time passes |
| Popup.DismissForcesFirstMatch | src/popup.rs:115-121 | only the first match is forced out, even if it was already leaving; an absent id changes nothing; the length never changes |
| Popup.DismissedEntryLeaves | src/popup.rs:115-121 | with unique ids, a dismissed entry is gone after one tick an animation time later |
| Popup.CubeBounded | src/popup.rs:235-237 | ease-in cubic maps [0,1] into [0,1] |
| Popup.EaseOutCubicBounded | src/popup.rs:231-233 | ease-out cubic maps [0,1] into [0,1] |
| Popup.EaseOutBack | src/popup.rs:225-229 | ease-out-back maps 0 to 0 and 1 to 1 |
| Popup.EaseOutCubic | src/popup.rs:231-233 | ease-out cubic maps 0 to 0 and 1 to 1 |
| Popup.EaseInCubic | src/popup.rs:235-237 | ease-in cubic maps 0 to 0 and 1 to 1 |
| Popup.EasingMidpoints | src/popup.rs:272-320 | at 0.5 ease-in is below, ease-out and ease-out-back above the diagonal |
| Popup.EaseOutCubicMonotone | src/popup.rs:231-233 | ease-out cubic is monotone on [0,1] |
| Popup.EaseOutBackOvershoots | src/popup.rs:225-229 | ease-out-back exceeds 1 on [0.5, 1) |
| Popup.RatioMonotone | src/popup.rs:185 | the animation fraction grows with elapsed time |
| Popup.EntryProgressMonotone | src/popup.rs:179-194 | progress grows while sliding in and falls while sliding out |
| Popup.StaggeredProgressOvershoots | src/popup.rs:158-163 | the staggered slide-in overshoots 1 at some instant |
| Popup.StaggerHoldsBack | src/popup.rs:152-163 | the entry at index i shows no progress before 40·i ms have passed |
| Popup.MaxProgressIsLargest | src/popup.rs:212-216 | the fold is the largest entry progress and is attained |
| Popup.BubbleProgressIsLargest | src/popup.rs:134-139 | bubble progress is the largest entry progress and is attained |
| Popup.BubbleFullWhileDisplaying | src/popup.rs:134-139 | any displaying entry makes the bubble fully visible |
| Popup.MaxProgressFalls | src/popup.rs:210-218 | when all entries are leaving, the largest progress only falls |
| Popup.HeightFollowsProgress | src/popup.rs:210-218 | with all entries leaving, the height falls when the largest progress does |
| Popup.HeightShrinksWhileAllLeave | src/popup.rs:196-218 | while every entry is leaving, the surface height only shrinks |
| Popup.HeightZeroWhenDone | src/popup.rs:200-222 | once every exit has finished the height is 0; with no entries the bubble and activity are off |
| Utils.Utf8Len | src/utils/mod.rs:52 | a character takes 1 to 4 bytes, one exactly when it is ASCII |
| Utils.Utf8Length | src/utils/mod.rs:52 | the byte length is between the character count and four times it |
| Utils.Utf8LengthAscii | src/utils/mod.rs:52 | the byte length equals the character count iff the text is ASCII |
| Utils.TruncateChars | src/utils/mod.rs:25-32 | the result is a prefix of the input, n characters long when the input is longer, the input otherwise |
| Utils.TruncateCharsIdempotent | src/utils/mod.rs:25-32 | truncating twice is truncating once, and the dropped suffix restores the input |
| Utils.TruncateTextAsWritten | src/utils/mod.rs:51-62 | the source's truncation: any value whose UTF-8 length is within the limit comes back unchanged |
| Utils.TruncateText | src/utils/mod.rs:51-62 | corrected truncation: a value within the limit in characters is unchanged; a longer one becomes 2(m/2)+3 characters, at most m+3 |
| Utils.TruncateTextShape | src/utils/mod.rs:51-62 | a short value is unchanged; a long one is its first and last m/2 characters around "...", 2(m/2)+3 long |
| Utils.TruncateTextAsciiAgrees | src/utils/mod.rs:51-62 | on ASCII text the source's truncation is the character-counted one, and a value within the limit is unchanged |
| Utils.TruncateTextLosesTail | src/utils/mod.rs:52-57 | two-byte text loses its tail in the source and is kept by the corrected version |
| Utils.DigitChar | src/utils/mod.rs:19-21 | a digit's character is a decimal digit |
| Utils.Decimal | src/utils/mod.rs:19-21 | a numeral is nonempty, all digits, one digit exactly below 10 |
| Utils.DecimalRoundTrip | src/utils/mod.rs:19-21 | reading a numeral back gives the number |
| Utils.PadLeft2 | src/utils/mod.rs:19-21 | width-2 right alignment pads a short text with spaces and leaves a longer one |
| Utils.IndexOf | src/utils/mod.rs:34 | the index of the first occurrence, or the length |
| Utils.FormatDuration | src/utils/mod.rs:15-23 | the label ends in "m" and is exactly three characters long iff the duration is under an hour |
| Utils.FormatDurationRoundTrip | src/utils/mod.rs:15-23 | the label reads back as whole hours and minutes below 60 |
| Utils.FormatDurationSameMinutes | src/utils/mod.rs:15-23 | two durations get the same label iff they have the same whole minutes, so leftover seconds are discarded |
| Utils.ReplaceAll | src/utils/mod.rs:41-48 | `str::replace` introduces no character outside the input and the replacement, and replacing a pattern by itself changes nothing |
| Utils.ReplaceAllSkip | src/utils/mod.rs:41-48 | text without the pattern's first character is copied through ahead of the replacements |
| Utils.ReplaceAt | src/utils/mod.rs:41-48 | an occurrence between pattern-free text is replaced and nothing else changes |
| Utils.ReplaceMisses | src/utils/mod.rs:41 | a piece that starts like the pattern but is not it is left alone |
| Utils.ReplaceBreaks | src/utils/mod.rs:41 | the br conversion adds no character but the line break |
| Utils.BreaksBecomeNewlines | src/utils/mod.rs:41 | each of `<br>`, `<br/>` and `<br />` between plain text becomes one line break |
| Utils.DecodeEntities | src/utils/mod.rs:43-48 | decoding adds no character except & < > " and '; EntitiesDecode states what each entity decodes to |
| Utils.ReplaceNearMiss | src/utils/mod.rs:43-48 | a piece that does not start with the pattern, even one shorter than it, is left alone |
| Utils.DecodeLt | src/utils/mod.rs:44 | `&lt;` between text without '&' decodes to '<' and nothing else changes |
| Utils.DecodeGt | src/utils/mod.rs:45 | `&gt;` between text without '&' decodes to '>' and nothing else changes |
| Utils.DecodeQuot | src/utils/mod.rs:46 | `&quot;` between text without '&' decodes to '"' and nothing else changes |
| Utils.DecodeApos | src/utils/mod.rs:47 | `&apos;` between text without '&' decodes to an apostrophe and nothing else changes |
| Utils.LoneAmpersandKept | src/utils/mod.rs:44-48 | a lone '&' with no ';' after it is not the start of any later entity, so it is kept |
| Utils.DecodeAmp | src/utils/mod.rs:43-48 | `&amp;` decodes to '&', and when no ';' follows, the later stages leave that '&' alone |
| Utils.EntitiesDecode | src/utils/mod.rs:43-48 | each of the five entities, between text without '&', decodes to its character (`&amp;` when no ';' follows) |
| Utils.StripMarkupTags | src/utils/mod.rs:39-49 | the result adds no character except the line break and the decoded entity characters |
| Utils.StripTagsSkipsPlain | src/utils/mod.rs:34-42 | text before the first '<' is kept as it is |
| Utils.StripTagsDropsTag | src/utils/mod.rs:34-42 | '<', one or more characters other than '>', and the following '>' are removed together, and only they |
| Utils.StripTagsKeepsEmptyBrackets | src/utils/mod.rs:34 | "<>" is no match and is kept |
| Utils.ReplaceAllAbsent | src/utils/mod.rs:41-48 | text without the pattern's first character is unchanged by replace |
| Utils.StripTags | src/utils/mod.rs:34-42 | tag removal only keeps characters of its input |
| Utils.StripTagsLeavesNoTag | src/utils/mod.rs:34-42 | no match of the tag pattern remains after removal |
| Utils.StripTagsNoAngle | src/utils/mod.rs:34-42 | text without '<', or without '>', has nothing removed, so a lone '<' as in "a < b" survives |
| Utils.StrippedHasNoTag | src/utils/mod.rs:39-42 | the text between tag removal and entity decoding holds no tag |
| Utils.StripMarkupPlainText | src/utils/mod.rs:39-49 | text without '<' and '&' is returned unchanged |
| Utils.StripMarkupBreaks | src/utils/mod.rs:39-49 | through the whole pipeline, each of `<br>`, `<br/>` and `<br />` between text without '<' and '&' becomes exactly one newline, and nothing else changes |
| Utils.StripTagsExample | src/utils/mod.rs:42 | the formatting tag pair in `<b>x</b>` is removed, leaving `x` |
| Utils.DecodeIsSequential | src/utils/mod.rs:43-48 | "&amp;lt;" decodes to "<" |

## Left out

- The D-Bus plumbing is not modelled: the zbus interface, signal emission and the session connection lifecycle (`src/services/notifications/mod.rs:71-167`). `NotificationClosed` and `ActionInvoked` are values only.
- The event channel and the spawned timer are returned as values. A failed channel send is silent in the source and has no counterpart here.
- `NotificationDaemon::new` takes a sender and a default timeout. The sender is left out with the channel.
- `Instant::now()` becomes a `now` parameter in milliseconds. `duration_since` saturates at 0, as `Popup.Elapsed` does.
- A `Duration`'s sub-second part is left out: the display duration and animation time are whole milliseconds, and `format_duration` takes whole seconds, as `as_secs` gives.
- Progress, easing and height are modelled over `real`, not `f32`. Rounding, NaN and infinity are not modelled. An animation time of 0 gives ratio 1, which is what `f32::min` returns for an infinite or NaN ratio.
- The icon, timestamp and app data of a notification are opaque fields.
- Rendering, windowing and configuration loading are not modelled: `view`, `menu_view`, `subscription`, `app.rs`, the launcher and config hot-reload. `b.truncate(200)` in the menu view is rendering code.
- `Action::Command`'s task payload is not modelled; `update` never returns one.
- `Notifications.Update`: the unread count is a `nat`, not a `usize` that could overflow.
- `STRIP_TAGS_RE` is spelled out as a scanner with the regex's leftmost-first semantics, not as a regex engine.
- Text is a sequence of Unicode scalar values. Its UTF-8 size is computed by `Utils.Utf8Length`, but the byte encoding itself is not modelled.
- The test-only helpers for surface resizing in `src/popup.rs` are not modelled.

## Findings

| source | as written | input that shows it | evidently intended | confidence | as-written member | corrected member |
|---|---|---|---|---|---|---|
| src/utils/mod.rs:52-57 | `truncate_text` compares the UTF-8 byte length with the limit and skips `bytes - max/2` characters for the tail | "ééééé" (5 chars, 10 bytes) with limit 6 gives "ééé..."; ten é's give "ééé..." with no tail | count characters throughout: keep short text, else first and last max/2 characters around "..." | not executed | Utils.TruncateTextAsWritten (counterexample Utils.TruncateTextLosesTail) | Utils.TruncateText (Utils.TruncateTextShape, Utils.TruncateTextAsciiAgrees) |
