/** The animated button: a fixed five-event timeline played by the timeline
    hook, a completion text swapped in when the "collapse text wrapper"
    event settles, and the click / keyboard state machine that plays the
    timeline once (or, with reduced motion, completes at once). */
module AnimatedButton {
  import opened Wrappers
  import opened AnimationTimeline

  /** What a button callback does to the button's own state. */
  datatype Effect =
    | ShowText(text: string)                        // setCurrentText(text)
    | MarkCompleted(announcement: Option<string>)   // setIsCompleted(true), setAnnouncement

  /** A callback is the list of effects it performs, in order. */
  type Callback = seq<Effect>

  /** The component's props (the styling props are left out). `disabled`
      tells whether the caller passed the key at all (`None` when not) and,
      if so, its value, which may itself be `undefined` (`Some(None)`). */
  datatype Props = Props(
    children: string,
    completedText: string,
    animated: bool,
    hasIcon: bool,
    ariaLabel: Option<string>,
    announceCompletion: bool,
    disabled: Option<Option<bool>>)

  /** The defaults the component destructures its props with. */
  function DefaultProps(children: string): (p: Props)
    ensures p.completedText == "Completed!" && !p.animated && p.announceCompletion
  {
    Props(children, "Completed!", false, false, None, true, None)
  }

  /** The component's state plus the hook it owns. `clicks` counts calls of
      the caller's `onClick`. */
  datatype Button = Button(
    hasBeenTriggered: bool,
    isCompleted: bool,
    currentText: string,
    announcement: string,
    prefersReducedMotion: bool,
    clicks: nat,
    hook: Run<Callback>)

  /** The state right after mounting. */
  function Mount(props: Props, prefersReducedMotion: bool): (b: Button)
    ensures !b.hasBeenTriggered && !b.isCompleted && b.currentText == props.children
    ensures !b.hook.isPlaying && b.hook.pending == []
    ensures b.hook == Idle() && b.announcement == "" && b.clicks == 0
    ensures b.prefersReducedMotion == prefersReducedMotion
  {
    Button(false, false, props.children, "", prefersReducedMotion, 0, Idle())
  }

  // ---------------------------------------------------------------------
  // The fixed animation data

  /** `ANIMATION_MAP`. */
  const AnimationMap: Registry := map[
    "collapse" := Keyframes("collapse"),
    "expand" := Keyframes("expand"),
    "collapsePadding" := Keyframes("collapsePadding"),
    "expandPadding" := Keyframes("expandPadding"),
    "moveToCenter" := Keyframes("moveIconToCenter"),
    "moveFromCenter" := Keyframes("moveIconFromCenter"),
    "fadeOut" := Keyframes("fadeOut"),
    "fadeIn" := Keyframes("fadeIn")]

  function Anim(target: Target, key: string, duration: int, easing: Option<Easing>): Animation<Callback> {
    Animation(target, key, easing, None, Some(duration), None, None)
  }

  const CollapseEventName: string := "collapse text wrapper"

  /** `ANIMATION_TIMELINE`. */
  const Timeline: seq<Event<Callback>> := [
    Event("move icon to center", 200,
      [Anim("icon-wrapper", "moveToCenter", 300, None), Anim("text", "fadeOut", 250, None)], None, None),
    Event(CollapseEventName, 500,
      [Anim("button", "collapsePadding", 300, Some(EaseIn)), Anim("text-wrapper", "collapse", 300, Some(EaseIn))], None, None),
    Event("fade out icon original, fade in icon completed", 1000,
      [Anim("icon-original", "fadeOut", 1000, None), Anim("icon-completed", "fadeIn", 1000, None)], None, None),
    Event("expand text wrapper", 3000,
      [Anim("button", "expandPadding", 300, Some(EaseOut)), Anim("text-wrapper", "expand", 300, Some(EaseOut))], None, None),
    Event("move icon from center", 3300,
      [Anim("icon-wrapper", "moveFromCenter", 300, None), Anim("text", "fadeIn", 250, None)], None, None)]

  /** Every animation of the timeline names a keyframes of the map, so no
      target ever gets the empty style. */
  lemma TimelineKeysKnown()
    ensures forall i, j :: 0 <= i < |Timeline| && 0 <= j < |Timeline[i].animations| ==>
      Timeline[i].animations[j].key in AnimationMap
  {
  }

  /** The hook's duration formula on this timeline gives 3600 ms (the event
      at 3300 plus 300 ms), so the run completes 4100 ms after `play`. */
  lemma TimelineDuration()
    ensures TotalDuration(Timeline) == Finite(3600)
    ensures CompletionDelay(Timeline) == 4100
  {
    forall k | 0 <= k < |Timeline|
      ensures EndsBy(Timeline[k], 3600)
    {
      var e := Timeline[k];
      assert e.at + EndOf(e.animations[0]) <= 3600 && e.at + EndOf(e.animations[1]) <= 3600;
    }
    TotalDurationIs(Timeline, 3600, 4, 0);
  }

  // ---------------------------------------------------------------------
  // The per-render timeline

  /** `events.find(e => e.name === name)`, as an index. */
  function FindEvent(events: seq<Event<Callback>>, name: string): (r: Option<nat>)
    ensures r.Some? ==>
      r.value < |events| && events[r.value].name == name &&
      forall j :: 0 <= j < r.value ==> events[j].name != name
    ensures r.None? ==> forall j :: 0 <= j < |events| ==> events[j].name != name
  {
    if |events| == 0 then None
    else if events[0].name == name then Some(0)
    else
      match FindEvent(events[1..], name)
      case None => None
      case Some(k) => Some(k + 1)
  }

  /** The patched `onComplete`: the original callback, then
      `setCurrentText(completedText)`. */
  function WithTextSwap(e: Event<Callback>, completedText: string): Event<Callback> {
    e.(onComplete := Some(e.onComplete.GetOr([]) + [ShowText(completedText)]))
  }

  /** The `useMemo` rebuild: a copy of every event in which only the first
      event named "collapse text wrapper" gets the text swap appended to its
      `onComplete`. */
  function Rebuild(events: seq<Event<Callback>>, completedText: string): (r: seq<Event<Callback>>)
    ensures |r| == |events|
    ensures forall i :: 0 <= i < |events| ==>
      r[i].name == events[i].name && r[i].at == events[i].at &&
      r[i].animations == events[i].animations && r[i].onStart == events[i].onStart
    ensures forall i :: 0 <= i < |events| && FindEvent(events, CollapseEventName) != Some(i) ==> r[i] == events[i]
    ensures FindEvent(events, CollapseEventName).Some? ==>
      var i := FindEvent(events, CollapseEventName).value;
      r[i].onComplete == Some(events[i].onComplete.GetOr([]) + [ShowText(completedText)])
  {
    match FindEvent(events, CollapseEventName)
    case None => events
    case Some(i) => events[i := WithTextSwap(events[i], completedText)]
  }

  /** The rebuild leaves timing alone: the rebuilt timeline has the same
      total duration. */
  lemma RebuildKeepsDuration(events: seq<Event<Callback>>, completedText: string)
    ensures TotalDuration(Rebuild(events, completedText)) == TotalDuration(events)
  {
    SameTimingSameDuration(Rebuild(events, completedText), events);
  }

  /** What the hook is called with on every render. */
  function HookConfig(props: Props): Config<Callback> {
    Config(AnimationMap, Rebuild(Timeline, props.completedText),
      Some([MarkCompleted(if props.announceCompletion then Some(props.completedText) else None)]))
  }

  /** In the rebuilt timeline the collapse event settles 300 ms after it
      fires, so a run started at `now` swaps the text at `now + 800`. */
  lemma TextSwapAt800(props: Props, now: int)
    ensures var tl := HookConfig(props).timeline;
      && tl[1].name == CollapseEventName && tl[1].at == 500
      && tl[1].onComplete == Some([ShowText(props.completedText)])
      && now + tl[1].at + TimerDelay(EventSpan(tl[1])) == now + 800
  {
    var tl := HookConfig(props).timeline;
    assert FindEvent(Timeline, CollapseEventName) == Some(1);
    assert Timeline[1].onComplete.GetOr([]) + [ShowText(props.completedText)] == [ShowText(props.completedText)];
    assert EndOf(tl[1].animations[0]) == 300 && EndOf(tl[1].animations[1]) == 300;
  }

  // ---------------------------------------------------------------------
  // Effects of callbacks

  function ApplyEffect(b: Button, e: Effect): Button {
    match e
    case ShowText(t) => b.(currentText := t)
    case MarkCompleted(a) => b.(isCompleted := true, announcement := a.GetOr(b.announcement))
  }

  function ApplyEffects(b: Button, es: seq<Effect>): Button
    decreases |es|
  {
    if |es| == 0 then b else ApplyEffects(ApplyEffect(b, es[0]), es[1..])
  }

  function ApplyCallbacks(b: Button, cbs: seq<Callback>): Button
    decreases |cbs|
  {
    if |cbs| == 0 then b else ApplyCallbacks(ApplyEffects(b, cbs[0]), cbs[1..])
  }

  /** The hook's `onComplete`: the button becomes completed and, when
      announcing, the announcement is the completion text. */
  lemma RunCompletionCompletes(b: Button, props: Props)
    ensures var r := ApplyEffects(b, HookConfig(props).onComplete.value);
      && r.isCompleted
      && r.announcement == (if props.announceCompletion then props.completedText else b.announcement)
      && r.currentText == b.currentText && r.hasBeenTriggered == b.hasBeenTriggered
  {
  }

  /** Lets the clock reach `now`: the hook fires what is due and the button
      applies the callbacks that fired. */
  function Advance(b: Button, now: int): Button {
    Settle(b, Tick(b.hook, now))
  }

  /** The button once its hook has moved on to `hook`: the callbacks fired
      in between have been applied. */
  function Settle(b: Button, hook: Run<Callback>): Button
    requires |b.hook.fired| <= |hook.fired|
  {
    ApplyCallbacks(b.(hook := hook), hook.fired[|b.hook.fired|..])
  }

  /** On the fixed timeline the rebuild patches the second event only. */
  lemma RebuiltTimelineShape(completedText: string)
    ensures Rebuild(Timeline, completedText) == Timeline[1 := WithTextSwap(Timeline[1], completedText)]
  {
    assert FindEvent(Timeline, CollapseEventName) == Some(1);
  }

  /** An event that invokes nothing when it fires. */
  predicate Quiet(e: Event<Callback>) {
    SilentAnimations(e.animations) && e.onStart.None?
  }

  lemma QuietPair(e: Event<Callback>)
    requires |e.animations| == 2 && e.onStart.None?
    requires e.animations[0].onStart.None? && e.animations[0].onComplete.None?
    requires e.animations[1].onStart.None? && e.animations[1].onComplete.None?
    ensures Quiet(e)
  {
  }

  /** The facts of `RebuiltTimeline` the run of the clock depends on. */
  predicate QuietTimeline(tl: seq<Event<Callback>>, swap: Callback) {
    && |tl| == 5
    && tl[0].at == 200 && tl[1].at == 500 && tl[2].at == 1000 && tl[3].at == 3000 && tl[4].at == 3300
    && Quiet(tl[0]) && Quiet(tl[1]) && Quiet(tl[2]) && Quiet(tl[3]) && Quiet(tl[4])
    && tl[0].onComplete.None? && tl[2].onComplete.None? && tl[3].onComplete.None? && tl[4].onComplete.None?
    && tl[1].onComplete == Some(swap) && EventSpan(tl[1]) == Finite(300)
  }

  /** The rebuilt timeline: events at 200, 500, 1000, 3000 and 3300 ms,
      none of whose animations carries a callback; only the collapse event
      has an `onComplete`, the text swap, settling 300 ms after it fires. */
  lemma RebuiltTimeline(props: Props)
    ensures QuietTimeline(HookConfig(props).timeline, [ShowText(props.completedText)])
  {
    var tl := HookConfig(props).timeline;
    RebuiltTimelineShape(props.completedText);
    TextSwapAt800(props, 0);
    QuietPair(tl[0]);
    QuietPair(tl[1]);
    QuietPair(tl[2]);
    QuietPair(tl[3]);
    QuietPair(tl[4]);
  }

  /** A run of the rebuilt timeline completes 4100 ms after it starts. */
  lemma RebuiltCompletionDelay(props: Props)
    ensures CompletionDelay(HookConfig(props).timeline) == 4100
  {
    RebuildKeepsDuration(Timeline, props.completedText);
    TimelineDuration();
  }

  /** The timer that fires event `i` of a run started at 0. */
  function EventAt(tl: seq<Event<Callback>>, i: nat): Timer<Callback>
    requires i < |tl|
  {
    Timer(tl[i].at, FireEvent(AnimationMap, tl[i]))
  }

  /** Playing the rebuilt timeline at 0 queues the five events, then the
      completion timer at 4100 ms. */
  lemma PlayQueue(tl: seq<Event<Callback>>, done: Option<Callback>)
    requires |tl| == 5
    requires tl[0].at == 200 && tl[1].at == 500 && tl[2].at == 1000 && tl[3].at == 3000 && tl[4].at == 3300
    requires CompletionDelay(tl) == 4100
    ensures var r0 := Play(Idle(), Config(AnimationMap, tl, done), 0);
      && r0.pending == [EventAt(tl, 0), EventAt(tl, 1), EventAt(tl, 2), EventAt(tl, 3), EventAt(tl, 4), Timer(4100, FinishRun(done))]
      && r0.fired == [] && r0.isPlaying
  {
    EventQueue(tl);
  }

  /** The event timers of a five-event timeline started at 0. */
  lemma EventQueue(tl: seq<Event<Callback>>)
    requires |tl| == 5
    requires tl[0].at == 200 && tl[1].at == 500 && tl[2].at == 1000 && tl[3].at == 3000 && tl[4].at == 3300
    ensures EventTimers(AnimationMap, tl, 0) == [EventAt(tl, 0), EventAt(tl, 1), EventAt(tl, 2), EventAt(tl, 3), EventAt(tl, 4)]
  {
  }

  /** Up to 799 ms: the first two events fire silently; the collapse event
      leaves the text swap queued for 800 ms. */
  lemma OpeningEvents(r0: Run<Callback>, tl: seq<Event<Callback>>, swap: Callback, fin: Timer<Callback>)
      returns (r2: Run<Callback>)
    requires QuietTimeline(tl, swap) && fin.due == 4100
    requires r0.pending == [EventAt(tl, 0), EventAt(tl, 1), EventAt(tl, 2), EventAt(tl, 3), EventAt(tl, 4), fin]
    requires r0.fired == [] && r0.isPlaying
    ensures r2.pending == [EventAt(tl, 2), EventAt(tl, 3), EventAt(tl, 4), fin, Timer(800, Invoke(swap))]
    ensures r2.fired == [] && r2.isPlaying
    ensures forall now :: 500 <= now ==> Tick(r0, now) == Tick(r2, now)
  {
    var e0, e1, e2, e3, e4 := EventAt(tl, 0), EventAt(tl, 1), EventAt(tl, 2), EventAt(tl, 3), EventAt(tl, 4);
    assert r0.pending == [e0] + [e1, e2, e3, e4, fin];
    var r1 := StepQuietEvent(r0, 200, AnimationMap, tl[0], [e1, e2, e3, e4, fin]);
    assert r1.pending == [e1] + [e2, e3, e4, fin];
    assert EventCompletion(500, tl[1]) == [Timer(800, Invoke(swap))];
    r2 := StepQuietEvent(r1, 500, AnimationMap, tl[1], [e2, e3, e4, fin]);
    assert r2.pending == [e2, e3, e4, fin] + [Timer(800, Invoke(swap))];
  }

  /** At 800 ms the text swap fires; nothing fires just before. */
  lemma SwapPhase(r2: Run<Callback>, tl: seq<Event<Callback>>, swap: Callback, fin: Timer<Callback>)
      returns (r3: Run<Callback>)
    requires QuietTimeline(tl, swap) && fin.due == 4100
    requires r2.pending == [EventAt(tl, 2), EventAt(tl, 3), EventAt(tl, 4), fin, Timer(800, Invoke(swap))]
    requires r2.fired == [] && r2.isPlaying
    ensures Tick(r2, 799) == r2
    ensures Tick(r2, 800) == r3
    ensures r3.pending == [EventAt(tl, 2), EventAt(tl, 3), EventAt(tl, 4), fin]
    ensures r3.fired == [swap] && r3.isPlaying
    ensures forall now :: 800 <= now ==> Tick(r2, now) == Tick(r3, now)
  {
    var rest := [EventAt(tl, 2), EventAt(tl, 3), EventAt(tl, 4), fin];
    assert r2.pending == rest + [Timer(800, Invoke(swap))];
    r3 := StepInvokeLast(r2, rest, 800, swap);
  }

  /** From 800 ms on: the last three events fire silently, then the
      completion timer ends the run at 4100 ms. */
  lemma SecondPhase(r3: Run<Callback>, tl: seq<Event<Callback>>, swap: Callback, done: Option<Callback>)
    requires QuietTimeline(tl, swap) && done.Some?
    requires r3.pending == [EventAt(tl, 2), EventAt(tl, 3), EventAt(tl, 4), Timer(4100, FinishRun(done))]
    requires r3.fired == [swap] && r3.isPlaying
    ensures Tick(r3, 4099).fired == [swap] && Tick(r3, 4099).isPlaying
    ensures Tick(r3, 4100).fired == [swap, done.value] && !Tick(r3, 4100).isPlaying
    ensures Tick(r3, 4100).active == map[] && Tick(r3, 4100).pending == []
  {
    var e2, e3, e4, fin := EventAt(tl, 2), EventAt(tl, 3), EventAt(tl, 4), Timer(4100, FinishRun(done));
    assert r3.pending == [e2] + [e3, e4, fin];
    var r4 := StepQuietEvent(r3, 1000, AnimationMap, tl[2], [e3, e4, fin]);
    assert r4.pending == [e3] + [e4, fin];
    var r5 := StepQuietEvent(r4, 3000, AnimationMap, tl[3], [e4, fin]);
    assert r5.pending == [e4] + [fin];
    var r6 := StepQuietEvent(r5, 3300, AnimationMap, tl[4], [fin]);
    assert r6.pending == [fin];
    var r7 := StepFinish(r6, 4100, done);
    assert r7.fired == [swap, done.value];
    assert Tick(r3, 4099) == Tick(r4, 4099) == Tick(r5, 4099) == Tick(r6, 4099) == r6;
    assert Tick(r3, 4100) == Tick(r4, 4100) == Tick(r5, 4100) == Tick(r6, 4100) == r7;
  }

  /** The clock on a run of the rebuilt timeline started at 0: the swap
      callback fires at 800 ms and not before, and the run completes at
      4100 ms. */
  lemma PlayRebuilt(tl: seq<Event<Callback>>, swap: Callback, done: Option<Callback>)
    requires QuietTimeline(tl, swap) && CompletionDelay(tl) == 4100 && done.Some?
    ensures var r0 := Play(Idle(), Config(AnimationMap, tl, done), 0);
      && Tick(r0, 799).fired == [] && Tick(r0, 799).isPlaying
      && Tick(r0, 800).fired == [swap] && Tick(r0, 800).isPlaying
      && Tick(r0, 4099).fired == [swap] && Tick(r0, 4099).isPlaying
      && Tick(r0, 4100).fired == [swap, done.value] && !Tick(r0, 4100).isPlaying
      && Tick(r0, 4100).active == map[] && Tick(r0, 4100).pending == []
  {
    var r0 := Play(Idle(), Config(AnimationMap, tl, done), 0);
    PlayQueue(tl, done);
    var fin := Timer(4100, FinishRun(done));
    var r2 := OpeningEvents(r0, tl, swap, fin);
    var r3 := SwapPhase(r2, tl, swap, fin);
    assert Tick(r0, 799) == Tick(r2, 799);
    assert Tick(r0, 800) == Tick(r2, 800);
    SecondPhase(r3, tl, swap, done);
    assert Tick(r0, 4099) == Tick(r2, 4099) == Tick(r3, 4099);
    assert Tick(r0, 4100) == Tick(r2, 4100) == Tick(r3, 4100);
  }

  /** Applying what a fresh run fired: nothing, the text swap, then the
      completion callback. */
  lemma SettleRun(b: Button, h: Run<Callback>, text: string, announce: Option<string>)
    requires b.hook.fired == [] && !b.isCompleted
    ensures h.fired == [] ==> Settle(b, h) == b.(hook := h)
    ensures h.fired == [[ShowText(text)]] ==>
      Settle(b, h) == b.(hook := h, currentText := text)
    ensures h.fired == [[ShowText(text)], [MarkCompleted(announce)]] ==>
      var e := Settle(b, h);
      e.hook == h && e.isCompleted && e.currentText == text
  {
    assert h.fired[0..] == h.fired;
    var b' := b.(hook := h);
    var swapped := b'.(currentText := text);
    assert [ShowText(text)][1..] == [];
    assert ApplyEffects(b', [ShowText(text)]) == swapped;
    if h.fired == [[ShowText(text)]] {
      assert h.fired[1..] == [];
      assert ApplyCallbacks(b', h.fired) == ApplyCallbacks(swapped, []) == swapped;
    }
    if h.fired == [[ShowText(text)], [MarkCompleted(announce)]] {
      assert [MarkCompleted(announce)][1..] == [];
      assert h.fired[1..] == [[MarkCompleted(announce)]] && h.fired[1..][1..] == [];
      var done := ApplyEffect(swapped, MarkCompleted(announce));
      assert ApplyEffects(swapped, [MarkCompleted(announce)]) == done;
      assert done.isCompleted && done.currentText == text && done.hook == h;
      assert ApplyCallbacks(swapped, [[MarkCompleted(announce)]]) == ApplyCallbacks(done, []);
    }
  }

  /** Clicking an animated button (no reduced motion) at time 0 plays the
      whole timeline: the text is swapped at 800 ms and not before, and at
      4100 ms the run completes, the button is completed and the active
      map is empty again. */
  lemma ClickPlaysToCompletion(props: Props)
    requires props.animated
    ensures var b := Click(Mount(props, false), props, 0);
      && Advance(b, 799).currentText == props.children
      && Advance(b, 800).currentText == props.completedText
      && IsPlaying(Advance(b, 4099)) && !Advance(b, 4099).isCompleted
      && var e := Advance(b, 4100);
         e.isCompleted && !IsPlaying(e) && e.hook.active == map[] && e.hook.pending == []
         && e.currentText == props.completedText
  {
    var cfg := HookConfig(props);
    RebuiltTimeline(props);
    RebuiltCompletionDelay(props);
    var b := Click(Mount(props, false), props, 0);
    PlayRebuilt(cfg.timeline, [ShowText(props.completedText)], cfg.onComplete);
    var announce := cfg.onComplete.value[0].announcement;
    SettleRun(b, Tick(b.hook, 799), props.completedText, announce);
    SettleRun(b, Tick(b.hook, 800), props.completedText, announce);
    SettleRun(b, Tick(b.hook, 4099), props.completedText, announce);
    SettleRun(b, Tick(b.hook, 4100), props.completedText, announce);
  }

  // ---------------------------------------------------------------------
  // Interaction

  predicate IsPlaying(b: Button) {
    b.hook.isPlaying
  }

  /** The reduced-motion path: the end state at once, without the timeline. */
  function CompleteNow(b: Button, props: Props): (r: Button)
    ensures r.isCompleted && r.currentText == props.completedText
    ensures r.hook == b.hook && r.hasBeenTriggered == b.hasBeenTriggered
    ensures r.announcement == (if props.announceCompletion then props.completedText else b.announcement)
  {
    b.(currentText := props.completedText, isCompleted := true,
       announcement := if props.announceCompletion then props.completedText else b.announcement)
  }

  /** `handleClick` at time `now`. */
  function Click(b: Button, props: Props, now: int): (r: Button)
    ensures b.hasBeenTriggered ==> r == b
    ensures !b.hasBeenTriggered && !IsPlaying(b) ==> r.hasBeenTriggered && r.clicks == b.clicks + 1
    ensures !b.hasBeenTriggered && props.animated && !IsPlaying(b) && !b.prefersReducedMotion ==>
      r.hook == Play(b.hook, HookConfig(props), now) && IsPlaying(r)
      && r.isCompleted == b.isCompleted && r.currentText == b.currentText
      && r == b.(hasBeenTriggered := true, clicks := b.clicks + 1, hook := Play(b.hook, HookConfig(props), now))
    ensures !b.hasBeenTriggered && props.animated && !IsPlaying(b) && b.prefersReducedMotion ==>
      r == CompleteNow(b.(hasBeenTriggered := true, clicks := b.clicks + 1), props)
    ensures !b.hasBeenTriggered && !props.animated && !IsPlaying(b) ==>
      r == b.(hasBeenTriggered := true, clicks := b.clicks + 1)
    ensures IsPlaying(b) ==> r == b
  {
    if b.hasBeenTriggered then b
    else if props.animated && !IsPlaying(b) && !b.prefersReducedMotion then
      b.(hasBeenTriggered := true, clicks := b.clicks + 1, hook := Play(b.hook, HookConfig(props), now))
    else if !IsPlaying(b) then
      var t := b.(hasBeenTriggered := true, clicks := b.clicks + 1);
      if b.prefersReducedMotion && props.animated then CompleteNow(t, props) else t
    else b
  }

  /** The keys that activate the button from the keyboard. */
  predicate IsActivationKey(key: string) {
    key == " " || key == "Enter"
  }

  /** `handleKeyDown` for `key` at time `now`. */
  function KeyDown(b: Button, props: Props, key: string, now: int): (r: Button)
    ensures b.hasBeenTriggered ==> r == b
    ensures !(IsActivationKey(key) && props.animated && !IsPlaying(b)) ==> r == b
    ensures !b.hasBeenTriggered && IsActivationKey(key) && props.animated && !IsPlaying(b) ==>
      r.hasBeenTriggered && r.clicks == b.clicks + 1
    ensures !b.hasBeenTriggered && IsActivationKey(key) && props.animated && !IsPlaying(b) && b.prefersReducedMotion ==>
      r == CompleteNow(b.(hasBeenTriggered := true, clicks := b.clicks + 1), props)
    ensures !b.hasBeenTriggered && IsActivationKey(key) && props.animated && !IsPlaying(b) && !b.prefersReducedMotion ==>
      r.hook == Play(b.hook, HookConfig(props), now) && IsPlaying(r) && r.currentText == b.currentText
      && r == b.(hasBeenTriggered := true, clicks := b.clicks + 1, hook := Play(b.hook, HookConfig(props), now))
  {
    if b.hasBeenTriggered then b
    else if IsActivationKey(key) && props.animated && !IsPlaying(b) then
      var t := b.(hasBeenTriggered := true, clicks := b.clicks + 1);
      if !b.prefersReducedMotion then t.(hook := Play(b.hook, HookConfig(props), now))
      else CompleteNow(t, props)
    else b
  }

  /** An animated button that is clicked or activated from the keyboard is
      triggered for good: every later click or key press changes nothing. */
  lemma TriggeredIsFinal(b: Button, props: Props, key: string, now: int, later: int)
    requires !b.hasBeenTriggered && props.animated && !IsPlaying(b)
    ensures var c := Click(b, props, now);
      c.hasBeenTriggered && Click(c, props, later) == c && KeyDown(c, props, key, later) == c
    ensures IsActivationKey(key) ==> var k := KeyDown(b, props, key, now);
      k.hasBeenTriggered && Click(k, props, later) == k && KeyDown(k, props, key, later) == k
  {
  }

  // ---------------------------------------------------------------------
  // Rendered attributes

  /** The `disabled={isPlaying || props.disabled || hasBeenTriggered}`
      expression. */
  predicate Disabled(b: Button, props: Props) {
    IsPlaying(b) || CallerDisables(props) || b.hasBeenTriggered
  }

  /** `props.disabled` is truthy: the caller passed `disabled={true}`. */
  predicate CallerDisables(props: Props) {
    props.disabled == Some(Some(true))
  }

  /** The button is disabled while its timeline plays and from the moment it
      is triggered, and otherwise exactly when the caller disables it. */
  lemma DisabledWhen(b: Button, props: Props, now: int)
    ensures Disabled(b, props) <==> IsPlaying(b) || b.hasBeenTriggered || props.disabled == Some(Some(true))
    ensures Disabled(Click(b, props, now), props)
    ensures !IsPlaying(b) && !b.hasBeenTriggered && props.disabled != Some(Some(true)) ==> !Disabled(b, props)
  {
  }

  /** The attribute the DOM receives: the `{...props}` spread that follows
      `disabled={...}` replaces it whenever the caller passed the key, even
      with the value `undefined`, which renders no attribute. */
  function RenderedDisabled(b: Button, props: Props): bool {
    match props.disabled
    case Some(passed) => passed == Some(true)
    case None => Disabled(b, props)
  }

  /** A passed `disabled={false}`, or a passed `disabled={undefined}` such
      as a wrapper forwarding an optional prop, leaves a triggered and
      playing button enabled in the DOM. */
  lemma RenderedDisabledOverridden(props: Props)
    requires props.disabled == Some(Some(false)) || props.disabled == Some(None)
    requires props.animated
    ensures var b := Click(Mount(props, false), props, 0);
      b.hasBeenTriggered && IsPlaying(b) && Disabled(b, props) && !RenderedDisabled(b, props)
  {
  }

  /** The rendered attribute agrees with the computed one when the caller
      left `disabled` out or passed `true`; with any other passed value it
      can differ, as `RenderedDisabledOverridden` shows. */
  lemma RenderedDisabledAgrees(b: Button, props: Props)
    requires props.disabled.None? || props.disabled == Some(Some(true))
    ensures RenderedDisabled(b, props) == Disabled(b, props)
  {
  }

  /** `accessibleLabel`: a non-empty `ariaLabel` wins; otherwise the label
      tells whether the button has been triggered. */
  function AccessibleLabel(props: Props, hasBeenTriggered: bool): (s: string)
    ensures props.ariaLabel.Some? && props.ariaLabel.value != "" ==> s == props.ariaLabel.value
    ensures props.ariaLabel.None? || props.ariaLabel.value == "" ==>
      props.children <= s && (s == props.children <==> !props.hasIcon && !hasBeenTriggered)
  {
    if props.ariaLabel.Some? && props.ariaLabel.value != "" then props.ariaLabel.value
    else props.children + LabelSuffix(props.hasIcon, hasBeenTriggered)
  }

  /** What the derived label appends to the button text. */
  function LabelSuffix(hasIcon: bool, hasBeenTriggered: bool): (s: string)
    ensures s == [] <==> !hasIcon && !hasBeenTriggered
  {
    if hasIcon then ", " + (if hasBeenTriggered then "completed" else "click to complete")
    else if hasBeenTriggered then " (completed)"
    else ""
  }

  /** The derived label's wording: "<text>, click to complete" and
      "<text>, completed" with an icon, "<text> (completed)" without. */
  lemma LabelWording(props: Props, hasBeenTriggered: bool)
    requires props.ariaLabel.None? || props.ariaLabel.value == ""
    ensures props.hasIcon && hasBeenTriggered ==>
      AccessibleLabel(props, hasBeenTriggered) == props.children + ", completed"
    ensures props.hasIcon && !hasBeenTriggered ==>
      AccessibleLabel(props, hasBeenTriggered) == props.children + ", click to complete"
    ensures !props.hasIcon && hasBeenTriggered ==>
      AccessibleLabel(props, hasBeenTriggered) == props.children + " (completed)"
  {
    assert ", " + "completed" == ", completed";
    assert ", " + "click to complete" == ", click to complete";
  }

  /** Without an `ariaLabel`, the label starts with the children and differs
      before and after triggering. */
  lemma LabelReflectsTrigger(props: Props)
    requires props.ariaLabel.None? || props.ariaLabel.value == ""
    ensures props.children <= AccessibleLabel(props, false)
    ensures props.children <= AccessibleLabel(props, true)
    ensures AccessibleLabel(props, false) != AccessibleLabel(props, true)
  {
    assert |LabelSuffix(props.hasIcon, false)| != |LabelSuffix(props.hasIcon, true)|;
  }
}
