/** The popup lifecycle engine: a bounded list of popup entries, each in
    phase SlideIn, Display or SlideOut, advanced by time-driven polling
    (`Tick`), by `Enqueue` and by `Dismiss`, plus the pure progress, easing
    and surface-height functions the renderer queries. Time is a count of
    milliseconds passed in as `now`. */
module Popup {
  import opened Common
  import opened Service
  import opened Config

  datatype PopupPhase = SlideIn | Display | SlideOut

  datatype PopupEntry = PopupEntry(notification: Notification, phase: PopupPhase, phaseStarted: nat, displayDuration: nat)

  /** Milliseconds from `earlier` to `now`; zero when `earlier` is later,
      as `Instant::duration_since` saturates. */
  function Elapsed(now: nat, earlier: nat): (d: nat)
    ensures now >= earlier ==> d == now - earlier
    ensures now < earlier ==> d == 0
  {
    if now >= earlier then now - earlier else 0
  }

  /** An entry that is entering or showing, not leaving. */
  predicate IsActiveEntry(e: PopupEntry)
  {
    e.phase != SlideOut
  }

  /** `e` forced into SlideOut at `now`. */
  function ToSlideOut(e: PopupEntry, now: nat): (r: PopupEntry)
    ensures r.notification == e.notification && r.displayDuration == e.displayDuration
    ensures r.phase == SlideOut && r.phaseStarted == now
  {
    e.(phase := SlideOut, phaseStarted := now)
  }

  /** Number of entries that are not in SlideOut. */
  function CountActive(s: seq<PopupEntry>): (k: nat)
    ensures k <= |s|
  {
    if s == [] then 0
    else (if IsActiveEntry(s[0]) then 1 else 0) + CountActive(s[1..])
  }

  lemma {:induction false} CountActiveAppend(a: seq<PopupEntry>, b: seq<PopupEntry>)
    ensures CountActive(a + b) == CountActive(a) + CountActive(b)
    decreases |a|
  {
    if a != [] {
      assert (a + b)[0] == a[0] && (a + b)[1..] == a[1..] + b;
      CountActiveAppend(a[1..], b);
    } else {
      assert a + b == b;
    }
  }

  /** A list counts no active entry exactly when every entry is leaving. */
  lemma {:induction false} CountActiveZero(s: seq<PopupEntry>)
    ensures CountActive(s) == 0 <==> forall i :: 0 <= i < |s| ==> s[i].phase == SlideOut
    decreases |s|
  {
    if s != [] {
      CountActiveZero(s[1..]);
      assert forall i :: 1 <= i < |s| ==> s[i] == s[1..][i - 1];
    }
  }

  /** Index of the first entry not in SlideOut, or `|s|` (`find` over
      `iter_mut`). */
  function FirstActive(s: seq<PopupEntry>): (i: nat)
    ensures i <= |s|
    ensures i < |s| ==> IsActiveEntry(s[i])
    ensures forall j :: 0 <= j < i ==> !IsActiveEntry(s[j])
    ensures i < |s| <==> CountActive(s) > 0
  {
    if s == [] then 0
    else if IsActiveEntry(s[0]) then 0
    else 1 + FirstActive(s[1..])
  }

  /** Index of the first entry for notification `id`, or `|s|`. */
  function FindById(s: seq<PopupEntry>, id: u32): (i: nat)
    ensures i <= |s|
    ensures i < |s| ==> s[i].notification.id == id
    ensures forall j :: 0 <= j < i ==> s[j].notification.id != id
  {
    if s == [] then 0
    else if s[0].notification.id == id then 0
    else 1 + FindById(s[1..], id)
  }

  /** `s` with its first `k` active entries forced into SlideOut at `now`. */
  function EvictOldest(s: seq<PopupEntry>, k: nat, now: nat): (r: seq<PopupEntry>)
    ensures |r| == |s|
  {
    if s == [] then []
    else if k > 0 && IsActiveEntry(s[0]) then [ToSlideOut(s[0], now)] + EvictOldest(s[1..], k - 1, now)
    else [s[0]] + EvictOldest(s[1..], k, now)
  }

  /** Entry by entry: the active entries among the first `k` active ones
      are forced out; every other entry, including each one already in
      SlideOut, is kept as it was. */
  lemma {:induction false} EvictOldestAt(s: seq<PopupEntry>, k: nat, now: nat, i: nat)
    requires i < |s|
    ensures EvictOldest(s, k, now)[i] ==
      if IsActiveEntry(s[i]) && CountActive(s[..i]) < k then ToSlideOut(s[i], now) else s[i]
    decreases |s|
  {
    if i > 0 {
      var k' := if k > 0 && IsActiveEntry(s[0]) then k - 1 else k;
      EvictOldestAt(s[1..], k', now, i - 1);
      assert s[..i] == [s[0]] + s[1..][..i - 1];
      CountActiveAppend([s[0]], s[1..][..i - 1]);
    }
  }

  lemma {:induction false} EvictOldestNone(s: seq<PopupEntry>, now: nat)
    ensures EvictOldest(s, 0, now) == s
    decreases |s|
  {
    if s != [] {
      EvictOldestNone(s[1..], now);
    }
  }

  /** Evicting `j` then `k` more is evicting `j + k`. */
  lemma {:induction false} EvictOldestCompose(s: seq<PopupEntry>, j: nat, k: nat, now: nat)
    ensures EvictOldest(EvictOldest(s, j, now), k, now) == EvictOldest(s, j + k, now)
    decreases |s|
  {
    if s != [] {
      if j > 0 && IsActiveEntry(s[0]) {
        EvictOldestCompose(s[1..], j - 1, k, now);
      } else if IsActiveEntry(s[0]) {
        EvictOldestNone(s, now);
      } else {
        EvictOldestCompose(s[1..], j, k, now);
      }
    }
  }

  /** Forcing the first active entry out is evicting one. */
  lemma {:induction false} EvictFirstActive(s: seq<PopupEntry>, now: nat)
    requires FirstActive(s) < |s|
    ensures s[FirstActive(s) := ToSlideOut(s[FirstActive(s)], now)] == EvictOldest(s, 1, now)
    decreases |s|
  {
    if !IsActiveEntry(s[0]) {
      EvictFirstActive(s[1..], now);
      assert s == [s[0]] + s[1..];
    } else {
      EvictOldestNone(s[1..], now);
    }
  }

  /** Eviction lowers the active count by `k`, or to zero. */
  lemma {:induction false} EvictOldestCount(s: seq<PopupEntry>, k: nat, now: nat)
    ensures CountActive(EvictOldest(s, k, now)) == if k <= CountActive(s) then CountActive(s) - k else 0
    decreases |s|
  {
    if s != [] {
      var k' := if k > 0 && IsActiveEntry(s[0]) then k - 1 else k;
      EvictOldestCount(s[1..], k', now);
    }
  }

  /** How many active entries are over the `max_visible` cap. */
  function Surplus(s: seq<PopupEntry>, maxVisible: nat): nat
  {
    if CountActive(s) > maxVisible then CountActive(s) - maxVisible else 0
  }

  /** `retain` of every entry whose notification id differs from `id`. */
  function WithoutNotification(s: seq<PopupEntry>, id: u32): seq<PopupEntry>
  {
    Filter(s, (e: PopupEntry) => e.notification.id != id)
  }

  /** The entries after `enqueue(n, displayDuration)` at `now`: the old entry
      with the same id removed, a SlideIn entry appended, and the oldest
      active entries beyond `max_visible` forced into SlideOut. */
  function EnqueueResult(s: seq<PopupEntry>, n: Notification, displayDuration: nat, now: nat, maxVisible: nat): (r: seq<PopupEntry>)
    ensures |r| == |WithoutNotification(s, n.id)| + 1
    ensures |r| <= |s| + 1
  {
    var pushed := WithoutNotification(s, n.id) + [PopupEntry(n, SlideIn, now, displayDuration)];
    EvictOldest(pushed, Surplus(pushed, maxVisible), now)
  }

  /** The next phase in the lifecycle; SlideOut leads to removal. */
  function NextPhase(p: PopupPhase): PopupPhase
  {
    match p
    case SlideIn => Display
    case Display => SlideOut
    case SlideOut => SlideOut
  }

  /** Whether `tick` at `now` moves `e` on: SlideIn after the animation,
      Display after the entry's display duration. */
  predicate PhaseDue(e: PopupEntry, now: nat, anim: nat)
  {
    match e.phase
    case SlideIn => Elapsed(now, e.phaseStarted) >= anim
    case Display => Elapsed(now, e.phaseStarted) >= e.displayDuration
    case SlideOut => false
  }

  /** One entry after the phase pass of `tick`: it moves at most one phase,
      and a move restarts its phase clock at `now`. */
  function Advance(e: PopupEntry, now: nat, anim: nat): (r: PopupEntry)
    ensures r.notification == e.notification && r.displayDuration == e.displayDuration
    ensures r != e <==> PhaseDue(e, now, anim)
    ensures r != e ==> r.phase == NextPhase(e.phase) && r.phase != e.phase && r.phaseStarted == now
  {
    if PhaseDue(e, now, anim) then e.(phase := NextPhase(e.phase), phaseStarted := now) else e
  }

  function AdvanceAll(s: seq<PopupEntry>, now: nat, anim: nat): (r: seq<PopupEntry>)
    ensures |r| == |s|
    ensures forall i :: 0 <= i < |s| ==> r[i] == Advance(s[i], now, anim)
  {
    seq(|s|, i requires 0 <= i < |s| => Advance(s[i], now, anim))
  }

  /** A leaving entry whose exit animation has run its course. */
  predicate ExitFinished(e: PopupEntry, now: nat, anim: nat)
  {
    e.phase == SlideOut && Elapsed(now, e.phaseStarted) >= anim
  }

  function Survivors(s: seq<PopupEntry>, now: nat, anim: nat): seq<PopupEntry>
  {
    Filter(s, (e: PopupEntry) => !ExitFinished(e, now, anim))
  }

  /** The entries after `tick` at `now`. */
  function TickResult(s: seq<PopupEntry>, now: nat, anim: nat): (r: seq<PopupEntry>)
    ensures |r| <= |s|
    ensures forall e :: e in r ==> !ExitFinished(e, now, anim)
  {
    Survivors(AdvanceAll(s, now, anim), now, anim)
  }

  /** The entries after `dismiss(id)` at `now`. */
  function DismissResult(s: seq<PopupEntry>, id: u32, now: nat): (r: seq<PopupEntry>)
    ensures |r| == |s|
    ensures forall j :: 0 <= j < |s| ==> r[j].notification == s[j].notification
    ensures forall j :: 0 <= j < |s| && r[j] != s[j] ==> r[j].phase == SlideOut && r[j].phaseStarted == now
  {
    var i := FindById(s, id);
    if i < |s| then s[i := ToSlideOut(s[i], now)] else s
  }

  /** No two entries are for the same notification id. */
  predicate UniqueEntries(s: seq<PopupEntry>)
  {
    forall i, j :: 0 <= i < j < |s| ==> s[i].notification.id != s[j].notification.id
  }

  // ----- Easing, over the reals -----

  const StaggerDelayMs: nat := 40

  /** `1 + c3 (t - 1)^3 + c1 (t - 1)^2` with c1 = 1.70158 and c3 = c1 + 1. */
  function EaseOutBack(t: real): (e: real)
    ensures t == 0.0 ==> e == 0.0
    ensures t == 1.0 ==> e == 1.0
  {
    1.0 + 2.70158 * (t - 1.0) * (t - 1.0) * (t - 1.0) + 1.70158 * (t - 1.0) * (t - 1.0)
  }

  function EaseOutCubic(t: real): (e: real)
    ensures t == 0.0 ==> e == 0.0
    ensures t == 1.0 ==> e == 1.0
  {
    1.0 - (1.0 - t) * (1.0 - t) * (1.0 - t)
  }

  function EaseInCubic(t: real): (e: real)
    ensures t == 0.0 ==> e == 0.0
    ensures t == 1.0 ==> e == 1.0
  {
    t * t * t
  }

  /** `(elapsed / anim).min(1.0)`. With a zero animation the source divides
      by zero, and `min(1.0)` turns both the infinity and the NaN into 1. */
  function Ratio(elapsed: real, anim: nat): (t: real)
    requires elapsed >= 0.0
    ensures 0.0 <= t <= 1.0
    ensures anim > 0 && elapsed < anim as real ==> t == elapsed / anim as real
    ensures anim == 0 || elapsed >= anim as real ==> t == 1.0
  {
    if anim == 0 then 1.0
    else if elapsed / anim as real < 1.0 then elapsed / anim as real
    else 1.0
  }

  /** The full height of a stack of `count` entries: 80 per entry plus 16
      of padding. */
  function StackHeight(count: nat): (h: real)
    ensures h >= 16.0
  {
    count as real * 80.0 + 16.0
  }

  lemma StackHeightMonotone(k: nat, n: nat)
    requires k <= n
    ensures StackHeight(k) <= StackHeight(n)
  {
  }

  /** A height scaled by a progress factor. */
  function Scale(full: real, p: real): real
  {
    full * p
  }

  function Max(a: real, b: real): real
  {
    if a >= b then a else b
  }

  class PopupState {
    var entries: seq<PopupEntry>
    var maxVisible: nat
    var animationDuration: nat

    constructor (config: NotificationsModuleConfig)
      ensures entries == []
      ensures maxVisible == config.popupMaxVisible && animationDuration == config.popupAnimationMs
    {
      entries := [];
      maxVisible := config.popupMaxVisible;
      animationDuration := config.popupAnimationMs;
    }

    method UpdateConfig(config: NotificationsModuleConfig)
      modifies this
      ensures entries == old(entries)
      ensures maxVisible == config.popupMaxVisible && animationDuration == config.popupAnimationMs
    {
      maxVisible := config.popupMaxVisible;
      animationDuration := config.popupAnimationMs;
    }

    method Enqueue(notification: Notification, displayDuration: nat, now: nat)
      modifies this
      ensures maxVisible == old(maxVisible) && animationDuration == old(animationDuration)
      ensures entries == EnqueueResult(old(entries), notification, displayDuration, now, maxVisible)
    {
      entries := WithoutNotification(entries, notification.id);
      entries := entries + [PopupEntry(notification, SlideIn, now, displayDuration)];
      ghost var pushed := entries;
      ghost var evicted: nat := 0;
      EvictOldestNone(pushed, now);
      while CountActive(entries) > maxVisible
        invariant maxVisible == old(maxVisible) && animationDuration == old(animationDuration)
        invariant evicted <= Surplus(pushed, maxVisible)
        invariant entries == EvictOldest(pushed, evicted, now)
        invariant CountActive(entries) == CountActive(pushed) - evicted
        decreases CountActive(entries)
      {
        // More active entries than the cap means one exists, so the
        // fallback `break` for a failed search is never taken.
        var oldest := FirstActive(entries);
        EvictFirstActive(entries, now);
        EvictOldestCompose(pushed, evicted, 1, now);
        EvictOldestCount(pushed, evicted + 1, now);
        entries := entries[oldest := ToSlideOut(entries[oldest], now)];
        evicted := evicted + 1;
      }
    }

    /** Advances phases and removes entries whose exit has finished; reports
        whether anything changed. */
    method Tick(now: nat) returns (changed: bool)
      modifies this
      ensures maxVisible == old(maxVisible) && animationDuration == old(animationDuration)
      ensures entries == TickResult(old(entries), now, animationDuration)
      ensures changed <==>
        (exists i :: 0 <= i < |old(entries)| && PhaseDue(old(entries)[i], now, animationDuration))
        || |entries| != |old(entries)|
    {
      var anim := animationDuration;
      changed := false;
      var i := 0;
      while i < |entries|
        invariant maxVisible == old(maxVisible) && animationDuration == old(animationDuration) == anim
        invariant 0 <= i <= |entries| == |old(entries)|
        invariant forall j :: 0 <= j < i ==> entries[j] == Advance(old(entries)[j], now, anim)
        invariant forall j :: i <= j < |entries| ==> entries[j] == old(entries)[j]
        invariant changed <==> exists j :: 0 <= j < i && PhaseDue(old(entries)[j], now, anim)
      {
        var entry := entries[i];
        var elapsed := Elapsed(now, entry.phaseStarted);
        match entry.phase {
          case SlideIn =>
            if elapsed >= anim {
              entries := entries[i := entry.(phase := Display, phaseStarted := now)];
              changed := true;
            }
          case Display =>
            if elapsed >= entry.displayDuration {
              entries := entries[i := entry.(phase := SlideOut, phaseStarted := now)];
              changed := true;
            }
          case SlideOut =>
        }
        i := i + 1;
      }
      assert entries == AdvanceAll(old(entries), now, anim);
      var before := |entries|;
      entries := Survivors(entries, now, anim);
      if |entries| != before {
        changed := true;
      }
    }

    method Dismiss(id: u32, now: nat)
      modifies this
      ensures maxVisible == old(maxVisible) && animationDuration == old(animationDuration)
      ensures entries == DismissResult(old(entries), id, now)
    {
      var i := FindById(entries, id);
      if i < |entries| {
        entries := entries[i := ToSlideOut(entries[i], now)];
      }
    }

    function IsActive(): (active: bool)
      reads this
      ensures active <==> |entries| > 0
    {
      entries != []
    }

    /** Surface-sizing progress of one entry, between 0 and 1 (no overshoot):
        eased-out cubic while entering, 1 while showing, one minus eased-in
        cubic while leaving. */
    function EntryProgressAt(entry: PopupEntry, now: nat): (p: real)
      reads this
      ensures 0.0 <= p <= 1.0
      ensures entry.phase == Display ==> p == 1.0
    {
      var t := Ratio(Elapsed(now, entry.phaseStarted) as real, animationDuration);
      EaseOutCubicBounded(t);
      CubeBounded(t);
      match entry.phase
      case SlideIn => EaseOutCubic(t)
      case Display => 1.0
      case SlideOut => 1.0 - EaseInCubic(t)
    }

    /** Visual progress of the entry at list position `index`: entering starts
        `40 * index` ms late and follows ease-out-back, which may overshoot
        1; leaving is the same decay as `EntryProgressAt`. */
    function EntryProgressStaggeredAt(entry: PopupEntry, index: nat, now: nat): (p: real)
      reads this
      ensures entry.phase == Display ==> p == 1.0
      ensures entry.phase == SlideOut ==> p == EntryProgressAt(entry, now)
      ensures entry.phase == SlideIn && Elapsed(now, entry.phaseStarted) >= StaggerDelayMs * index + animationDuration ==> p == 1.0
    {
      var elapsed := Elapsed(now, entry.phaseStarted) as real;
      var stagger := (StaggerDelayMs * index) as real;
      match entry.phase
      case SlideIn =>
        var effective := if elapsed - stagger > 0.0 then elapsed - stagger else 0.0;
        EaseOutBack(Ratio(effective, animationDuration))
      case Display => 1.0
      case SlideOut => 1.0 - EaseInCubic(Ratio(elapsed, animationDuration))
    }

    /** The largest entry progress in `s`, folded from 0. */
    function MaxProgress(s: seq<PopupEntry>, now: nat): (p: real)
      reads this
      ensures 0.0 <= p <= 1.0
      ensures s == [] ==> p == 0.0
    {
      if s == [] then 0.0
      else Max(MaxProgress(s[..|s| - 1], now), EntryProgressAt(s[|s| - 1], now))
    }

    function BubbleProgressAt(now: nat): (p: real)
      reads this
      ensures 0.0 <= p <= 1.0
      ensures entries == [] ==> p == 0.0
    {
      MaxProgress(entries, now)
    }

    /** The surface height: the full height of the active entries while any
        is active; while all are leaving, the full height of all entries
        scaled by the largest progress; 0 with no entries. */
    function TargetSurfaceHeightAt(now: nat): (h: real)
      reads this
      ensures CountActive(entries) > 0 ==> h == StackHeight(CountActive(entries))
      ensures entries == [] ==> h == 0.0
      ensures 0.0 <= h
      ensures h <= StackHeight(|entries|)
    {
      var activeCount := CountActive(entries);
      if activeCount > 0 then
        StackHeightMonotone(activeCount, |entries|);
        StackHeight(activeCount)
      else if entries != [] then
        var full := StackHeight(|entries|);
        var p := MaxProgress(entries, now);
        ScaleBounded(full, p);
        Scale(full, p)
      else 0.0
    }
  }

  // ----- Lemmas: enqueue -----

  /** After `enqueue(n)`, the new entry is last, it is the only one for
      `n.id`, and with `max_visible >= 1` it is SlideIn since `now`; with
      `max_visible == 0` even the new entry is forced out. */
  lemma EnqueueNewestLast(s: seq<PopupEntry>, n: Notification, d: nat, now: nat, maxVisible: nat)
    ensures var r := EnqueueResult(s, n, d, now, maxVisible);
      && |r| >= 1
      && r[|r| - 1].notification == n && r[|r| - 1].displayDuration == d
      && (forall j :: 0 <= j < |r| - 1 ==> r[j].notification.id != n.id)
      && (maxVisible >= 1 ==> r[|r| - 1].phase == SlideIn && r[|r| - 1].phaseStarted == now)
      && (maxVisible == 0 ==> r[|r| - 1].phase == SlideOut)
  {
    var kept := WithoutNotification(s, n.id);
    var entry := PopupEntry(n, SlideIn, now, d);
    var pushed := kept + [entry];
    var k := Surplus(pushed, maxVisible);
    var r := EnqueueResult(s, n, d, now, maxVisible);
    var last := |pushed| - 1;
    assert pushed[..last] == kept;
    CountActiveAppend(kept, [entry]);
    EvictOldestAt(pushed, k, now, last);
    forall j | 0 <= j < |r| - 1 ensures r[j].notification.id != n.id {
      EvictOldestAt(pushed, k, now, j);
      assert pushed[j] in kept;
    }
  }

  /** `enqueue` removes only earlier entries with the new id, keeps every
      other entry in its relative order, and changes nothing in them but,
      for an evicted one, its phase and phase start. */
  lemma EnqueueKeepsOthers(s: seq<PopupEntry>, n: Notification, d: nat, now: nat, maxVisible: nat)
    ensures var r := EnqueueResult(s, n, d, now, maxVisible);
      var kept := WithoutNotification(s, n.id);
      && |r| == |kept| + 1
      && (forall j :: 0 <= j < |kept| ==>
            r[j].notification == kept[j].notification && r[j].displayDuration == kept[j].displayDuration
            && (r[j] == kept[j] || r[j] == ToSlideOut(kept[j], now)))
      && (forall e :: e in s && e.notification.id != n.id ==> e in kept)
      && (forall e :: e in kept ==> e in s)
  {
    var kept := WithoutNotification(s, n.id);
    var pushed := kept + [PopupEntry(n, SlideIn, now, d)];
    var k := Surplus(pushed, maxVisible);
    forall j | 0 <= j < |kept| ensures EvictOldest(pushed, k, now)[j] == kept[j] || EvictOldest(pushed, k, now)[j] == ToSlideOut(kept[j], now) {
      EvictOldestAt(pushed, k, now, j);
    }
    forall e | e in s && e.notification.id != n.id ensures e in kept {
      FilterKeeps(s, (e: PopupEntry) => e.notification.id != n.id, e);
    }
  }

  /** After `enqueue`, at most `max_visible` entries are active. Exactly the
      earliest active entries, as many as the surplus, were forced out;
      entries already leaving keep their phase start. */
  lemma EnqueueEvictsEarliest(s: seq<PopupEntry>, n: Notification, d: nat, now: nat, maxVisible: nat)
    ensures var r := EnqueueResult(s, n, d, now, maxVisible);
      var pushed := WithoutNotification(s, n.id) + [PopupEntry(n, SlideIn, now, d)];
      && CountActive(r) <= maxVisible
      && CountActive(r) == (if CountActive(pushed) <= maxVisible then CountActive(pushed) else maxVisible)
      && |r| == |pushed|
      && (forall j :: 0 <= j < |pushed| ==>
            r[j] == (if IsActiveEntry(pushed[j]) && CountActive(pushed[..j]) < Surplus(pushed, maxVisible)
                     then ToSlideOut(pushed[j], now) else pushed[j]))
  {
    var pushed := WithoutNotification(s, n.id) + [PopupEntry(n, SlideIn, now, d)];
    var k := Surplus(pushed, maxVisible);
    EvictOldestCount(pushed, k, now);
    forall j | 0 <= j < |pushed| ensures EvictOldest(pushed, k, now)[j] ==
      if IsActiveEntry(pushed[j]) && CountActive(pushed[..j]) < k then ToSlideOut(pushed[j], now) else pushed[j]
    {
      EvictOldestAt(pushed, k, now, j);
    }
  }

  /** `enqueue` keeps entries unique by notification id. */
  lemma EnqueuePreservesUnique(s: seq<PopupEntry>, n: Notification, d: nat, now: nat, maxVisible: nat)
    requires UniqueEntries(s)
    ensures UniqueEntries(EnqueueResult(s, n, d, now, maxVisible))
  {
    var keep := (e: PopupEntry) => e.notification.id != n.id;
    var kept := WithoutNotification(s, n.id);
    var r := EnqueueResult(s, n, d, now, maxVisible);
    FilterOfUniqueEntries(s, keep);
    EnqueueKeepsOthers(s, n, d, now, maxVisible);
    EnqueueNewestLast(s, n, d, now, maxVisible);
    assert forall i, j :: 0 <= i < j < |kept| ==> r[i].notification.id != r[j].notification.id by {
      forall i, j | 0 <= i < j < |kept| ensures r[i].notification.id != r[j].notification.id {
        assert r[i].notification == kept[i].notification && r[j].notification == kept[j].notification;
      }
    }
  }

  /** `tick` keeps entries unique by notification id. */
  lemma TickPreservesUnique(s: seq<PopupEntry>, now: nat, anim: nat)
    requires UniqueEntries(s)
    ensures UniqueEntries(TickResult(s, now, anim))
  {
    FilterOfUniqueEntries(AdvanceAll(s, now, anim), (e: PopupEntry) => !ExitFinished(e, now, anim));
  }

  /** `dismiss` keeps entries unique by notification id. */
  lemma DismissPreservesUnique(s: seq<PopupEntry>, id: u32, now: nat)
    requires UniqueEntries(s)
    ensures UniqueEntries(DismissResult(s, id, now))
  {
  }

  lemma {:induction false} FilterOfUniqueEntries(s: seq<PopupEntry>, keep: PopupEntry -> bool)
    requires UniqueEntries(s)
    ensures UniqueEntries(Filter(s, keep))
    decreases |s|
  {
    if s != [] {
      var init, last := s[..|s| - 1], s[|s| - 1];
      FilterOfUniqueEntries(init, keep);
      var f := Filter(init, keep);
      forall x | x in f ensures x.notification.id != last.notification.id {
        var k :| 0 <= k < |init| && init[k] == x;
        assert s[k].notification.id != s[|s| - 1].notification.id;
      }
    }
  }

  // ----- Lemmas: tick -----

  /** `tick` removes exactly the leaving entries whose exit animation has
      finished after the phase pass, keeps the rest in order, and every
      survivor moved at most one phase. */
  lemma TickRemovesExactlyFinished(s: seq<PopupEntry>, now: nat, anim: nat)
    ensures var a := AdvanceAll(s, now, anim);
      var r := TickResult(s, now, anim);
      && (forall e :: e in r <==> e in a && !ExitFinished(e, now, anim))
      && (|r| < |s| <==> exists i :: 0 <= i < |a| && ExitFinished(a[i], now, anim))
      && (forall a1, a2 :: a == a1 + a2 ==> r == Survivors(a1, now, anim) + Survivors(a2, now, anim))
  {
    var a := AdvanceAll(s, now, anim);
    var keep := (e: PopupEntry) => !ExitFinished(e, now, anim);
    forall e | e in a && !ExitFinished(e, now, anim) ensures e in TickResult(s, now, anim) {
      FilterKeeps(a, keep, e);
    }
    FilterShrinks(a, keep);
    if exists i :: 0 <= i < |a| && ExitFinished(a[i], now, anim) {
      var i :| 0 <= i < |a| && ExitFinished(a[i], now, anim);
      assert a[i] in a;
    }
    if exists x :: x in a && !keep(x) {
      var x :| x in a && !keep(x);
      var i :| 0 <= i < |a| && a[i] == x;
    }
    forall a1, a2 | a == a1 + a2 ensures Survivors(a, now, anim) == Survivors(a1, now, anim) + Survivors(a2, now, anim) {
      FilterAppend(a1, a2, keep);
    }
  }

  /** The lifecycle end to end with a 100 ms animation and a 50 ms display
      duration: SlideIn after enqueue, Display after the first tick past
      100 ms, SlideOut after 50 ms more, gone after 100 ms more. */
  lemma LifecycleExample(n: Notification)
    ensures var s0 := EnqueueResult([], n, 50, 0, 3);
      var s1 := TickResult(s0, 101, 100);
      var s2 := TickResult(s1, 152, 100);
      var s3 := TickResult(s2, 253, 100);
      && s0 == [PopupEntry(n, SlideIn, 0, 50)]
      && s1 == [PopupEntry(n, Display, 101, 50)]
      && s2 == [PopupEntry(n, SlideOut, 152, 50)]
      && s3 == []
  {
    var e := PopupEntry(n, SlideIn, 0, 50);
    assert WithoutNotification([], n.id) == [];
    assert [] + [e] == [e];
    assert EvictOldest([e], 0, 0) == [e] by { EvictOldestNone([e], 0); }
    var s0 := [e];
    var e1 := PopupEntry(n, Display, 101, 50);
    assert AdvanceAll(s0, 101, 100) == [e1];
    assert Survivors([e1], 101, 100) == [e1] by {
      FilterKeepsAll([e1], (x: PopupEntry) => !ExitFinished(x, 101, 100));
    }
    var e2 := PopupEntry(n, SlideOut, 152, 50);
    assert AdvanceAll([e1], 152, 100) == [e2];
    assert Survivors([e2], 152, 100) == [e2] by {
      FilterKeepsAll([e2], (x: PopupEntry) => !ExitFinished(x, 152, 100));
    }
    assert AdvanceAll([e2], 253, 100) == [e2];
    assert Survivors([e2], 253, 100) == [] by {
      assert [e2][..0] == [];
    }
  }

  // ----- Lemmas: dismiss -----

  /** `dismiss` never changes the length; an absent id changes nothing; a
      present id forces its first entry into SlideOut from `now` (restarting
      an exit already under way) and leaves every other entry alone;
      repeating it at the same instant changes nothing more. */
  lemma DismissForcesFirstMatch(s: seq<PopupEntry>, id: u32, now: nat)
    ensures var r := DismissResult(s, id, now);
      && |r| == |s|
      && ((forall e :: e in s ==> e.notification.id != id) ==> r == s)
      && (forall j :: 0 <= j < |s| ==>
            r[j] == (if j == FindById(s, id) then ToSlideOut(s[j], now) else s[j]))
      && DismissResult(r, id, now) == r
  {
    var i := FindById(s, id);
    var r := DismissResult(s, id, now);
    if i < |s| {
      assert FindById(r, id) == i by {
        assert r[i].notification.id == id;
        assert forall j :: 0 <= j < i ==> r[j].notification.id != id;
      }
    }
  }

  /** Once dismissed, an entry of a list unique by id is gone after any
      tick at least one animation length later. */
  lemma DismissedEntryLeaves(s: seq<PopupEntry>, id: u32, now: nat, later: nat, anim: nat)
    requires UniqueEntries(s)
    requires later >= now + anim
    ensures forall e :: e in TickResult(DismissResult(s, id, now), later, anim) ==> e.notification.id != id
  {
    var d := DismissResult(s, id, now);
    var a := AdvanceAll(d, later, anim);
    var i := FindById(s, id);
    TickRemovesExactlyFinished(d, later, anim);
    forall e | e in TickResult(d, later, anim) ensures e.notification.id != id {
      var k :| 0 <= k < |a| && a[k] == e;
      assert e.notification.id == s[k].notification.id;
      if s[k].notification.id == id {
        assert false;
      }
    }
  }

  // ----- Lemmas: easing and progress -----

  lemma CubeMonotone(a: real, b: real)
    requires 0.0 <= a <= b
    ensures a * a * a <= b * b * b
  {
    assert a * a <= a * b <= b * b;
    assert a * a * a <= b * b * a <= b * b * b;
  }

  lemma CubeBounded(t: real)
    requires 0.0 <= t <= 1.0
    ensures 0.0 <= EaseInCubic(t) <= 1.0
  {
    CubeMonotone(t, 1.0);
    assert 0.0 <= t * t;
    assert 0.0 <= t * t * t;
    assert EaseInCubic(t) == t * t * t;
  }

  /** Ease-out-cubic stays within [0, 1] on [0, 1]: it never overshoots. */
  lemma EaseOutCubicBounded(t: real)
    requires 0.0 <= t <= 1.0
    ensures 0.0 <= EaseOutCubic(t) <= 1.0
  {
    CubeBounded(1.0 - t);
  }

  /** Ease-in is slow at first and ease-out-back fast: at the midpoint one
      is below one half and the other above it. */
  lemma EasingMidpoints()
    ensures EaseInCubic(0.5) < 0.5
    ensures EaseOutBack(0.5) > 0.5
    ensures EaseOutCubic(0.5) > 0.5
  {
  }

  lemma EaseOutCubicMonotone(t1: real, t2: real)
    requires 0.0 <= t1 <= t2 <= 1.0
    ensures EaseOutCubic(t1) <= EaseOutCubic(t2)
  {
    CubeMonotone(1.0 - t2, 1.0 - t1);
  }

  /** Ease-out-back rises above 1 on the second half of the interval. */
  lemma EaseOutBackOvershoots(t: real)
    requires 0.5 <= t < 1.0
    ensures EaseOutBack(t) > 1.0
  {
    var u := t - 1.0;
    var w := 2.70158 * u + 1.70158;
    assert u * w < 0.0;
    NegativeProduct(u * w, u);
    assert EaseOutBack(t) - 1.0 == u * w * u;
  }

  lemma AtLeastHalf(x: real, a: real)
    requires a > 0.0 && 2.0 * x >= a
    ensures x / a >= 0.5
  {
    var q := x / a;
    assert q * a == x;
    if q < 0.5 {
      MulLessStrict(q, 0.5, a);
      assert false;
    }
  }

  lemma MulLessStrict(q: real, r: real, a: real)
    requires q < r && a > 0.0
    ensures q * a < r * a
  {
    assert r * a - q * a == (r - q) * a;
    PositiveProduct(r - q, a);
  }

  lemma NegativeProduct(a: real, b: real)
    requires a < 0.0 && b < 0.0
    ensures a * b > 0.0
  {
  }

  lemma PositiveProduct(x: real, y: real)
    requires x > 0.0
    requires y > 0.0
    ensures x * y > 0.0
  {
  }

  lemma ScaleMonotone(full: real, p1: real, p2: real)
    requires 0.0 <= full && p1 <= p2
    ensures Scale(full, p1) <= Scale(full, p2)
  {
    assert full * p2 - full * p1 == full * (p2 - p1);
  }

  lemma RatioMonotone(e1: real, e2: real, anim: nat)
    requires 0.0 <= e1 <= e2
    ensures Ratio(e1, anim) <= Ratio(e2, anim)
  {
    if anim > 0 {
      var a := anim as real;
      assert e2 / a - e1 / a == (e2 - e1) / a;
    }
  }

  /** Surface progress never falls while an entry enters and never rises
      while it leaves. */
  lemma EntryProgressMonotone(state: PopupState, e: PopupEntry, now1: nat, now2: nat)
    requires now1 <= now2
    ensures e.phase == SlideIn ==> state.EntryProgressAt(e, now1) <= state.EntryProgressAt(e, now2)
    ensures e.phase == SlideOut ==> state.EntryProgressAt(e, now2) <= state.EntryProgressAt(e, now1)
  {
    var anim := state.animationDuration;
    var t1 := Ratio(Elapsed(now1, e.phaseStarted) as real, anim);
    var t2 := Ratio(Elapsed(now2, e.phaseStarted) as real, anim);
    RatioMonotone(Elapsed(now1, e.phaseStarted) as real, Elapsed(now2, e.phaseStarted) as real, anim);
    if e.phase == SlideIn {
      EaseOutCubicMonotone(t1, t2);
      assert state.EntryProgressAt(e, now1) == EaseOutCubic(t1);
      assert state.EntryProgressAt(e, now2) == EaseOutCubic(t2);
    } else if e.phase == SlideOut {
      CubeMonotone(t1, t2);
      assert state.EntryProgressAt(e, now1) == 1.0 - EaseInCubic(t1);
      assert state.EntryProgressAt(e, now2) == 1.0 - EaseInCubic(t2);
    }
  }

  /** Staggered entry progress overshoots 1 during SlideIn (the intended
      bounce) whenever the animation lasts at least 2 ms. */
  lemma StaggeredProgressOvershoots(state: PopupState, e: PopupEntry, index: nat)
    requires e.phase == SlideIn
    requires state.animationDuration >= 2
    ensures exists now: nat :: state.EntryProgressStaggeredAt(e, index, now) > 1.0
  {
    var anim := state.animationDuration;
    var now: nat := e.phaseStarted + StaggerDelayMs * index + anim - 1;
    var effective := (anim - 1) as real;
    assert Elapsed(now, e.phaseStarted) as real - (StaggerDelayMs * index) as real == effective;
    var t := Ratio(effective, anim);
    assert t == effective / anim as real;
    AtLeastHalf(effective, anim as real);
    assert t < 1.0;
    EaseOutBackOvershoots(t);
    assert state.EntryProgressStaggeredAt(e, index, now) > 1.0;
  }

  lemma ScaleBounded(full: real, p: real)
    requires 0.0 <= full && 0.0 <= p <= 1.0
    ensures 0.0 <= Scale(full, p) <= full
  {
  }

  /** The fold is the largest progress: it bounds every entry's and, for a
      list that is not empty, equals one of them. */
  lemma {:induction false} MaxProgressIsLargest(state: PopupState, s: seq<PopupEntry>, now: nat)
    ensures forall i :: 0 <= i < |s| ==> state.EntryProgressAt(s[i], now) <= state.MaxProgress(s, now)
    ensures s != [] ==> exists i :: 0 <= i < |s| && state.MaxProgress(s, now) == state.EntryProgressAt(s[i], now)
    decreases |s|
  {
    if s != [] {
      var init := s[..|s| - 1];
      MaxProgressIsLargest(state, init, now);
      assert forall i :: 0 <= i < |init| ==> s[i] == init[i];
      if init != [] && state.MaxProgress(init, now) >= state.EntryProgressAt(s[|s| - 1], now) {
        var i :| 0 <= i < |init| && state.MaxProgress(init, now) == state.EntryProgressAt(init[i], now);
        assert state.MaxProgress(s, now) == state.EntryProgressAt(s[i], now);
      }
    }
  }

  /** The bubble progress is the largest entry progress. */
  lemma BubbleProgressIsLargest(state: PopupState, now: nat)
    ensures forall i :: 0 <= i < |state.entries| ==> state.EntryProgressAt(state.entries[i], now) <= state.BubbleProgressAt(now)
    ensures state.entries != [] ==> exists i :: 0 <= i < |state.entries| && state.BubbleProgressAt(now) == state.EntryProgressAt(state.entries[i], now)
  {
    MaxProgressIsLargest(state, state.entries, now);
  }

  /** While every entry is leaving, the largest progress never rises. */
  lemma {:induction false} MaxProgressFalls(state: PopupState, s: seq<PopupEntry>, now1: nat, now2: nat)
    requires now1 <= now2
    requires forall i :: 0 <= i < |s| ==> s[i].phase == SlideOut
    ensures state.MaxProgress(s, now2) <= state.MaxProgress(s, now1)
    decreases |s|
  {
    if s != [] {
      MaxProgressFalls(state, s[..|s| - 1], now1, now2);
      EntryProgressMonotone(state, s[|s| - 1], now1, now2);
    }
  }

  /** While any entry is showing, the bubble is fully visible. */
  lemma BubbleFullWhileDisplaying(state: PopupState, i: nat, now: nat)
    requires i < |state.entries| && state.entries[i].phase == Display
    ensures state.BubbleProgressAt(now) == 1.0
  {
    BubbleProgressIsLargest(state, now);
  }

  /** A later entry in the list does not start its entrance until its
      stagger delay has passed: until then its visual progress is 0. */
  lemma StaggerHoldsBack(state: PopupState, e: PopupEntry, index: nat, now: nat)
    requires e.phase == SlideIn && state.animationDuration > 0
    requires Elapsed(now, e.phaseStarted) <= StaggerDelayMs * index
    ensures state.EntryProgressStaggeredAt(e, index, now) == 0.0
  {
    assert Ratio(0.0, state.animationDuration) == 0.0;
  }

  /** With every entry leaving, the surface height never grows over time. */
  lemma HeightShrinksWhileAllLeave(state: PopupState, now1: nat, now2: nat)
    requires now1 <= now2
    requires forall i :: 0 <= i < |state.entries| ==> state.entries[i].phase == SlideOut
    ensures state.TargetSurfaceHeightAt(now2) <= state.TargetSurfaceHeightAt(now1)
  {
    CountActiveZero(state.entries);
    if state.entries != [] {
      MaxProgressFalls(state, state.entries, now1, now2);
      HeightFollowsProgress(state, now1, now2);
    }
  }

  /** While no entry is active, the height moves with the largest progress. */
  lemma HeightFollowsProgress(state: PopupState, now1: nat, now2: nat)
    requires CountActive(state.entries) == 0 && state.entries != []
    requires state.MaxProgress(state.entries, now2) <= state.MaxProgress(state.entries, now1)
    ensures state.TargetSurfaceHeightAt(now2) <= state.TargetSurfaceHeightAt(now1)
  {
    ScaleMonotone(StackHeight(|state.entries|), state.MaxProgress(state.entries, now2), state.MaxProgress(state.entries, now1));
  }

  /** Once every exit animation has run its course the height is 0; with no
      entries the engine is inactive and bubble progress and height are 0. */
  lemma HeightZeroWhenDone(state: PopupState, now: nat)
    requires forall i :: 0 <= i < |state.entries| ==> ExitFinished(state.entries[i], now, state.animationDuration)
    ensures state.TargetSurfaceHeightAt(now) == 0.0
    ensures state.entries == [] ==> !state.IsActive() && state.BubbleProgressAt(now) == 0.0
  {
    CountActiveZero(state.entries);
    if state.entries != [] {
      MaxProgressIsLargest(state, state.entries, now);
      var p := state.MaxProgress(state.entries, now);
      var i :| 0 <= i < |state.entries| && p == state.EntryProgressAt(state.entries[i], now);
      var e := state.entries[i];
      assert Ratio(Elapsed(now, e.phaseStarted) as real, state.animationDuration) == 1.0;
    }
  }
}
