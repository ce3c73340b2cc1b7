/** The animation timeline hook (`useAnimationTimeline`): a list of timed
    events, each carrying per-target animations, is played against a clock.
    Firing an event merges its styles into the map of active animations and
    schedules the completion callbacks; the run itself completes after the
    last animation has ended plus a settle buffer.

    The browser's `setTimeout` becomes a queue of pending timers on a virtual
    clock, and `Tick(run, now)` fires every timer that is due by `now`.
    Callbacks are opaque values of a type `C`; "invoking" one appends it to the
    run's `fired` log, so a caller can interpret the log afterwards. */
module AnimationTimeline {
  import opened Wrappers

  /** The CSS easing functions an animation may name. */
  datatype Easing = Linear | Ease | EaseIn | EaseOut | EaseInOut

  /** An opaque keyframes definition; the scheduler never looks inside it. */
  datatype Keyframes = Keyframes(name: string)

  /** Animation key to keyframes: the hook's `animationMap` argument. */
  type Registry = map<string, Keyframes>

  /** The element an animation applies to (`data-role` in the button). */
  type Target = string

  /** What `createAnimationStyle` produces: the empty CSS fragment, or
      `animation: <keyframes> <duration>ms <easing> forwards` together with
      `animation-delay: <delay>ms`. */
  datatype Style =
    | NoStyle
    | Animate(keyframes: Keyframes, duration: int, delay: int, easing: Easing)

  /** One animation of one target inside an event. */
  datatype Animation<C> = Animation(
    target: Target,
    key: string,
    easing: Option<Easing>,
    delay: Option<int>,
    duration: Option<int>,
    onStart: Option<C>,
    onComplete: Option<C>)

  /** A timeline event: fires at the absolute offset `at` after `play`. */
  datatype Event<C> = Event(
    name: string,
    at: int,
    animations: seq<Animation<C>>,
    onStart: Option<C>,
    onComplete: Option<C>)

  const DefaultDuration: int := 300

  /** Extra time after the last animation ends before the run completes. */
  const SettleBuffer: int := 500

  // ---------------------------------------------------------------------
  // Durations

  /** `anim.duration || 300`: an absent duration and an explicit 0 (falsy)
      both become the default. */
  function DurationOf<C>(a: Animation<C>): (d: int)
    ensures a.duration.None? || a.duration == Some(0) ==> d == DefaultDuration
    ensures a.duration.Some? && a.duration.value != 0 ==> d == a.duration.value
  {
    if a.duration.Some? && a.duration.value != 0 then a.duration.value else DefaultDuration
  }

  /** `anim.delay || 0`. */
  function DelayOf<C>(a: Animation<C>): (d: int)
    ensures a.delay.None? ==> d == 0
    ensures a.delay.Some? ==> d == a.delay.value
  {
    a.delay.GetOr(0)
  }

  /** Offset, relative to its event, at which an animation ends. */
  function EndOf<C>(a: Animation<C>): int {
    DelayOf(a) + DurationOf(a)
  }

  /** A JavaScript number that is finite or `-Infinity`, the value of
      `Math.max()` with no arguments. */
  datatype Extended = NegInfinity | Finite(ms: int)

  predicate AtMost(a: Extended, b: Extended) {
    a.NegInfinity? || (b.Finite? && a.ms <= b.ms)
  }

  function Max(a: Extended, b: Extended): Extended {
    if AtMost(a, b) then b else a
  }

  /** `Math.max(...xs)`: an upper bound of every element that is one of them,
      or `-Infinity` for no (finite) elements. */
  function MaxOf(xs: seq<Extended>): (m: Extended)
    ensures forall i :: 0 <= i < |xs| ==> AtMost(xs[i], m)
    ensures m.Finite? ==> exists i :: 0 <= i < |xs| && xs[i] == m
  {
    if |xs| == 0 then NegInfinity else Max(xs[0], MaxOf(xs[1..]))
  }

  /** `x + n` where `-Infinity + n` stays `-Infinity`. */
  function Plus(x: Extended, n: int): Extended {
    match x
    case NegInfinity => NegInfinity
    case Finite(m) => Finite(m + n)
  }

  /** The delay `setTimeout` actually waits: negative values and
      `-Infinity` are clamped to 0. */
  function TimerDelay(x: Extended): (d: nat)
    ensures x.Finite? && x.ms >= 0 ==> d == x.ms
    ensures x.NegInfinity? || x.ms < 0 ==> d == 0
  {
    if x.Finite? && x.ms >= 0 then x.ms else 0
  }

  /** Offset from its event at which the last animation of `e` ends:
      `Math.max` over `delay + duration` of its animations. */
  function EventSpan<C>(e: Event<C>): (s: Extended)
    ensures s.NegInfinity? <==> |e.animations| == 0
    ensures forall i :: 0 <= i < |e.animations| ==> s.Finite? && EndOf(e.animations[i]) <= s.ms
    ensures s.Finite? ==> exists i :: 0 <= i < |e.animations| && EndOf(e.animations[i]) == s.ms
  {
    var ends := seq(|e.animations|, i requires 0 <= i < |e.animations| => Finite(EndOf(e.animations[i])));
    assert forall i :: 0 <= i < |e.animations| ==> ends[i] == Finite(EndOf(e.animations[i]));
    MaxOf(ends)
  }

  /** `event.at + Math.max(...)`: the run-relative end of an event. */
  function EventEnd<C>(e: Event<C>): (t: Extended)
    ensures t.NegInfinity? <==> |e.animations| == 0
    ensures forall j :: 0 <= j < |e.animations| ==> t.Finite? && e.at + EndOf(e.animations[j]) <= t.ms
    ensures t.Finite? ==> exists j :: 0 <= j < |e.animations| && e.at + EndOf(e.animations[j]) == t.ms
  {
    Plus(EventSpan(e), e.at)
  }

  /** The hook's `totalDuration`: the latest end over all events, or
      `-Infinity` when no event has an animation. */
  function TotalDuration<C>(timeline: seq<Event<C>>): (t: Extended)
    ensures t.NegInfinity? <==> forall i :: 0 <= i < |timeline| ==> |timeline[i].animations| == 0
    ensures forall i, j :: 0 <= i < |timeline| && 0 <= j < |timeline[i].animations| ==>
      t.Finite? && timeline[i].at + EndOf(timeline[i].animations[j]) <= t.ms
    ensures t.Finite? ==> exists i, j :: (0 <= i < |timeline| && 0 <= j < |timeline[i].animations| &&
      timeline[i].at + EndOf(timeline[i].animations[j]) == t.ms)
  {
    var ends := seq(|timeline|, i requires 0 <= i < |timeline| => EventEnd(timeline[i]));
    EndsBound(timeline, ends);
    MaxOf(ends)
  }

  /** Every animation of `e` has ended by `m`, counted from the run start. */
  predicate EndsBy<C>(e: Event<C>, m: int) {
    forall j :: 0 <= j < |e.animations| ==> e.at + EndOf(e.animations[j]) <= m
  }

  /** The total duration is `m` when every event has ended by `m` and some
      animation ends exactly then. */
  lemma TotalDurationIs<C>(timeline: seq<Event<C>>, m: int, i: nat, j: nat)
    requires forall k :: 0 <= k < |timeline| ==> EndsBy(timeline[k], m)
    requires i < |timeline| && j < |timeline[i].animations| && timeline[i].at + EndOf(timeline[i].animations[j]) == m
    ensures TotalDuration(timeline) == Finite(m)
  {
    var t := TotalDuration(timeline);
    var i', j' :| 0 <= i' < |timeline| && 0 <= j' < |timeline[i'].animations| &&
      timeline[i'].at + EndOf(timeline[i'].animations[j']) == t.ms;
    assert EndsBy(timeline[i'], m);
  }

  /** The facts about `Math.max` over the event ends that make up the
      contract of `TotalDuration`: an upper bound of every animation end,
      attained by one of them, `-Infinity` only when there is none. */
  lemma EndsBound<C>(timeline: seq<Event<C>>, ends: seq<Extended>)
    requires |ends| == |timeline| && forall i :: 0 <= i < |timeline| ==> ends[i] == EventEnd(timeline[i])
    ensures var t := MaxOf(ends);
      && (t.NegInfinity? <==> forall i :: 0 <= i < |timeline| ==> |timeline[i].animations| == 0)
      && (forall i, j :: 0 <= i < |timeline| && 0 <= j < |timeline[i].animations| ==>
            t.Finite? && timeline[i].at + EndOf(timeline[i].animations[j]) <= t.ms)
      && (t.Finite? ==> exists i, j :: (0 <= i < |timeline| && 0 <= j < |timeline[i].animations| &&
            timeline[i].at + EndOf(timeline[i].animations[j]) == t.ms))
  {
    EndsUpperBound(timeline, ends);
    EndsAttained(timeline, ends);
  }

  lemma EndsUpperBound<C>(timeline: seq<Event<C>>, ends: seq<Extended>)
    requires |ends| == |timeline| && forall i :: 0 <= i < |timeline| ==> ends[i] == EventEnd(timeline[i])
    ensures forall i :: 0 <= i < |timeline| ==> AtMost(EventEnd(timeline[i]), MaxOf(ends))
  {
  }

  lemma EndsAttained<C>(timeline: seq<Event<C>>, ends: seq<Extended>)
    requires |ends| == |timeline| && forall i :: 0 <= i < |timeline| ==> ends[i] == EventEnd(timeline[i])
    ensures MaxOf(ends).Finite? ==> exists i :: 0 <= i < |timeline| && EventEnd(timeline[i]) == MaxOf(ends)
  {
  }

  /** The total duration depends on nothing but the offsets and the
      animations of the events. */
  lemma SameTimingSameDuration<C>(a: seq<Event<C>>, b: seq<Event<C>>)
    requires |a| == |b|
    requires forall i :: 0 <= i < |a| ==> a[i].at == b[i].at && a[i].animations == b[i].animations
    ensures TotalDuration(a) == TotalDuration(b)
  {
    var endsA := seq(|a|, i requires 0 <= i < |a| => EventEnd(a[i]));
    var endsB := seq(|b|, i requires 0 <= i < |b| => EventEnd(b[i]));
    assert forall i :: 0 <= i < |a| ==> EventSpan(a[i]) == EventSpan(b[i]) by {
      forall i | 0 <= i < |a| ensures EventSpan(a[i]) == EventSpan(b[i]) {
        var x := seq(|a[i].animations|, k requires 0 <= k < |a[i].animations| => Finite(EndOf(a[i].animations[k])));
        var y := seq(|b[i].animations|, k requires 0 <= k < |b[i].animations| => Finite(EndOf(b[i].animations[k])));
        assert x == y;
      }
    }
    assert endsA == endsB;
  }

  /** Delay from `play` until the run completes: total duration plus the
      settle buffer, as `setTimeout` clamps it. */
  function CompletionDelay<C>(timeline: seq<Event<C>>): nat {
    TimerDelay(Plus(TotalDuration(timeline), SettleBuffer))
  }

  // ---------------------------------------------------------------------
  // Styles

  /** `createAnimationStyle(map, name, duration, delay)`. The hook never
      passes an easing, so the default `ease` is always used. An unknown key
      yields the empty style instead of an error. */
  function CreateAnimationStyle(registry: Registry, name: string, duration: int, delay: int): (s: Style)
    ensures s.NoStyle? <==> name !in registry
    ensures name in registry ==> s.keyframes == registry[name] && s.duration == duration && s.delay == delay
    ensures s.Animate? ==> s.easing == Ease
  {
    if name in registry then Animate(registry[name], duration, delay, Ease) else NoStyle
  }

  /** The style one animation contributes when its event fires. */
  function StyleOf<C>(registry: Registry, a: Animation<C>): Style {
    CreateAnimationStyle(registry, a.key, DurationOf(a), DelayOf(a))
  }

  /** No later animation of the same list targets the element of `anims[i]`. */
  predicate LastOnTarget<C>(anims: seq<Animation<C>>, i: int)
    requires 0 <= i < |anims|
  {
    forall j :: i < j < |anims| ==> anims[j].target != anims[i].target
  }

  /** Some animation of the list applies to `x`. */
  ghost predicate Targeted<C>(anims: seq<Animation<C>>, x: Target) {
    exists i :: 0 <= i < |anims| && anims[i].target == x
  }

  /** The targets the animations apply to. */
  function Targets<C>(anims: seq<Animation<C>>): (ts: set<Target>)
    ensures forall i :: 0 <= i < |anims| ==> anims[i].target in ts
  {
    if |anims| == 0 then {} else Targets(anims[..|anims| - 1]) + {anims[|anims| - 1].target}
  }

  /** `Targets` holds nothing but the animations' targets. */
  lemma {:induction false} TargetsExact<C>(anims: seq<Animation<C>>, x: Target)
    requires x in Targets(anims)
    ensures Targeted(anims, x)
  {
    var n := |anims| - 1;
    if x != anims[n].target {
      TargetsExact(anims[..n], x);
      var i :| 0 <= i < n && anims[..n][i].target == x;
      assert anims[i].target == x;
    }
  }

  /** The `newAnimations` record built while firing an event: one entry per
      target, the last animation on a target winning. */
  function NewStyles<C>(registry: Registry, anims: seq<Animation<C>>): (m: map<Target, Style>)
    ensures m.Keys == Targets(anims)
  {
    if |anims| == 0 then map[]
    else
      var n := |anims| - 1;
      NewStyles(registry, anims[..n])[anims[n].target := StyleOf(registry, anims[n])]
  }

  /** Within one event a later animation on the same target overrides an
      earlier one. */
  lemma {:induction false} NewStylesLastWins<C>(registry: Registry, anims: seq<Animation<C>>, i: nat)
    requires i < |anims| && LastOnTarget(anims, i)
    ensures NewStyles(registry, anims)[anims[i].target] == StyleOf(registry, anims[i])
  {
    var n := |anims| - 1;
    if i < n {
      var init := anims[..n];
      assert init[i] == anims[i];
      assert anims[n].target != anims[i].target;
      assert LastOnTarget(init, i) by {
        forall j | i < j < n ensures init[j].target != init[i].target {
          assert init[j] == anims[j];
        }
      }
      NewStylesLastWins(registry, init, i);
    }
  }

  // ---------------------------------------------------------------------
  // Runs on a virtual clock

  /** What a pending timer does when it fires. */
  datatype Action<C> =
    | FireEvent(registry: Registry, event: Event<C>)
    | Invoke(callback: C)
    | FinishRun(onComplete: Option<C>)

  datatype Timer<C> = Timer(due: int, action: Action<C>)

  /** The hook's state: `isPlaying`, `activeAnimations`, the timers held in
      `timeoutsRef`, and the log of callbacks invoked so far. */
  datatype Run<C> = Run(
    isPlaying: bool,
    active: map<Target, Style>,
    pending: seq<Timer<C>>,
    fired: seq<C>)

  /** The hook's arguments: animation map, timeline, and `callbacks.onComplete`. */
  datatype Config<C> = Config(registry: Registry, timeline: seq<Event<C>>, onComplete: Option<C>)

  function Idle<C>(): (r: Run<C>)
    ensures !r.isPlaying && r.active == map[] && r.pending == [] && r.fired == []
  {
    Run(false, map[], [], [])
  }

  /** The `onStart` callbacks of the animations, in order. */
  function AnimStarts<C>(anims: seq<Animation<C>>): (s: seq<C>)
    ensures forall a :: a in anims && a.onStart.Some? ==> a.onStart.value in s
  {
    if |anims| == 0 then [] else anims[0].onStart.ToSeq() + AnimStarts(anims[1..])
  }

  /** One animation contributes its `onStart` if set, and nothing else. */
  lemma AnimStartsOne<C>(a: Animation<C>)
    ensures AnimStarts([a]) == a.onStart.ToSeq()
  {
    assert [a][1..] == [];
  }

  /** The `onStart` callbacks of consecutive animations are invoked in
      array order: together with `AnimStartsOne` this fixes `AnimStarts` as
      exactly the set callbacks, once each, in order. */
  lemma {:induction false} AnimStartsConcat<C>(xs: seq<Animation<C>>, ys: seq<Animation<C>>)
    ensures AnimStarts(xs + ys) == AnimStarts(xs) + AnimStarts(ys)
  {
    if |xs| == 0 {
      assert xs + ys == ys;
    } else {
      assert (xs + ys)[0] == xs[0];
      assert (xs + ys)[1..] == xs[1..] + ys;
      AnimStartsConcat(xs[1..], ys);
    }
  }

  /** The timer an animation's `onComplete` gets when its event fires at
      `t`: `delay + duration` later. */
  function CompletionOf<C>(t: int, a: Animation<C>): Timer<C>
    requires a.onComplete.Some?
  {
    Timer(t + TimerDelay(Finite(EndOf(a))), Invoke(a.onComplete.value))
  }

  /** The completion timers the animations of an event fired at `t`
      schedule, in animation order. */
  function AnimCompletions<C>(t: int, anims: seq<Animation<C>>): (ts: seq<Timer<C>>)
    ensures forall k :: 0 <= k < |ts| ==> ts[k].action.Invoke?
  {
    if |anims| == 0 then []
    else
      var own := if anims[0].onComplete.Some? then [CompletionOf(t, anims[0])] else [];
      own + AnimCompletions(t, anims[1..])
  }

  /** One animation schedules its `onComplete` timer if set, and nothing
      else. */
  lemma AnimCompletionsOne<C>(t: int, a: Animation<C>)
    ensures AnimCompletions(t, [a]) == (if a.onComplete.Some? then [CompletionOf(t, a)] else [])
  {
    assert [a][1..] == [];
  }

  /** The completion timers of consecutive animations are queued in array
      order: together with `AnimCompletionsOne` this fixes `AnimCompletions`
      as one timer per set `onComplete`, in order, so callbacks due at the
      same time fire in array order. */
  lemma {:induction false} AnimCompletionsConcat<C>(t: int, xs: seq<Animation<C>>, ys: seq<Animation<C>>)
    ensures AnimCompletions(t, xs + ys) == AnimCompletions(t, xs) + AnimCompletions(t, ys)
  {
    if |xs| == 0 {
      assert xs + ys == ys;
    } else {
      assert (xs + ys)[0] == xs[0];
      assert (xs + ys)[1..] == xs[1..] + ys;
      AnimCompletionsConcat(t, xs[1..], ys);
    }
  }

  /** `tm` is the completion timer of one of the animations. */
  ghost predicate CompletionOfSome<C>(t: int, anims: seq<Animation<C>>, tm: Timer<C>) {
    exists i :: 0 <= i < |anims| && anims[i].onComplete.Some? && tm == CompletionOf(t, anims[i])
  }

  /** Exactly the animations that have an `onComplete` get a completion
      timer. */
  lemma {:induction false} AnimCompletionsContents<C>(t: int, anims: seq<Animation<C>>)
    ensures forall i :: 0 <= i < |anims| && anims[i].onComplete.Some? ==>
      CompletionOf(t, anims[i]) in AnimCompletions(t, anims)
    ensures forall k :: 0 <= k < |AnimCompletions(t, anims)| ==>
      CompletionOfSome(t, anims, AnimCompletions(t, anims)[k])
  {
    if |anims| > 0 {
      var rest := anims[1..];
      AnimCompletionsContents(t, rest);
      var own := if anims[0].onComplete.Some? then [CompletionOf(t, anims[0])] else [];
      var ts := AnimCompletions(t, anims);
      assert ts == own + AnimCompletions(t, rest);
      assert forall i :: 1 <= i < |anims| ==> anims[i] == rest[i - 1];
      forall k | 0 <= k < |ts|
        ensures CompletionOfSome(t, anims, ts[k])
      {
        if k < |own| {
          assert ts[k] == CompletionOf(t, anims[0]);
        } else {
          assert CompletionOfSome(t, rest, AnimCompletions(t, rest)[k - |own|]);
          var i :| 0 <= i < |rest| && rest[i].onComplete.Some? && AnimCompletions(t, rest)[k - |own|] == CompletionOf(t, rest[i]);
          assert ts[k] == CompletionOf(t, anims[i + 1]);
        }
      }
    }
  }

  /** The event's own completion timer, if it has an `onComplete`. */
  function EventCompletion<C>(t: int, e: Event<C>): (ts: seq<Timer<C>>)
    ensures e.onComplete.None? ==> ts == []
    ensures e.onComplete.Some? ==> ts == [Timer(t + TimerDelay(EventSpan(e)), Invoke(e.onComplete.value))]
  {
    if e.onComplete.Some? then [Timer(t + TimerDelay(EventSpan(e)), Invoke(e.onComplete.value))] else []
  }

  /** Runs the action of `timer`, which has already left the queue. */
  function Fire<C>(run: Run<C>, timer: Timer<C>): Run<C> {
    match timer.action
    case FireEvent(registry, e) =>
      run.(active := run.active + NewStyles(registry, e.animations),
           pending := run.pending + AnimCompletions(timer.due, e.animations) + EventCompletion(timer.due, e),
           fired := run.fired + e.onStart.ToSeq() + AnimStarts(e.animations))
    case Invoke(cb) =>
      run.(fired := run.fired + [cb])
    case FinishRun(cb) =>
      run.(isPlaying := false, active := map[], fired := run.fired + cb.ToSeq())
  }

  /** Firing an event overrides exactly its targets in the active map: each
      takes the style of the last animation on it, every other target keeps
      its entry. */
  lemma FireEventMerge<C>(run: Run<C>, t: int, registry: Registry, e: Event<C>)
    ensures var r := Fire(run, Timer(t, FireEvent(registry, e)));
      && r.isPlaying == run.isPlaying
      && r.active.Keys == run.active.Keys + Targets(e.animations)
      && (forall x :: x in run.active && x !in Targets(e.animations) ==> r.active[x] == run.active[x])
      && (forall i :: 0 <= i < |e.animations| && LastOnTarget(e.animations, i) ==>
            r.active[e.animations[i].target] == StyleOf(registry, e.animations[i]))
  {
    var r := Fire(run, Timer(t, FireEvent(registry, e)));
    var added := NewStyles(registry, e.animations);
    assert r.active == run.active + added;
    forall i | 0 <= i < |e.animations| && LastOnTarget(e.animations, i)
      ensures r.active[e.animations[i].target] == StyleOf(registry, e.animations[i])
    {
      NewStylesLastWins(registry, e.animations, i);
    }
  }

  /** Firing an event at `t` keeps every pending timer and adds, after them,
      one timer per animation `onComplete` at `t + delay + duration`, in
      array order, then, for the event's own `onComplete`, one at `t` plus
      the longest `delay + duration`, and nothing else. */
  lemma FireEventSchedules<C>(run: Run<C>, t: int, registry: Registry, e: Event<C>)
    ensures var r := Fire(run, Timer(t, FireEvent(registry, e)));
      && r.pending == run.pending + AnimCompletions(t, e.animations) + EventCompletion(t, e)
      && r.pending[..|run.pending|] == run.pending
      && (forall i :: 0 <= i < |e.animations| && e.animations[i].onComplete.Some? ==>
            CompletionOf(t, e.animations[i]) in r.pending)
      && (e.onComplete.Some? ==>
            Timer(t + TimerDelay(EventSpan(e)), Invoke(e.onComplete.value)) in r.pending)
  {
    var r := Fire(run, Timer(t, FireEvent(registry, e)));
    var own := AnimCompletions(t, e.animations);
    assert r.pending == run.pending + own + EventCompletion(t, e);
    AnimCompletionsContents(t, e.animations);
    forall i | 0 <= i < |e.animations| && e.animations[i].onComplete.Some?
      ensures CompletionOf(t, e.animations[i]) in r.pending
    {
      var tm := CompletionOf(t, e.animations[i]);
      assert tm in own;
      var k :| 0 <= k < |own| && own[k] == tm;
      assert r.pending[|run.pending| + k] == tm;
    }
    if e.onComplete.Some? {
      assert r.pending[|r.pending| - 1] == Timer(t + TimerDelay(EventSpan(e)), Invoke(e.onComplete.value));
    }
  }

  /** Firing an event logs its `onStart` first, then the `onStart` of each
      of its animations in array order, and nothing else. */
  lemma FireEventStarts<C>(run: Run<C>, t: int, registry: Registry, e: Event<C>)
    ensures var r := Fire(run, Timer(t, FireEvent(registry, e)));
      && r.fired == run.fired + e.onStart.ToSeq() + AnimStarts(e.animations)
      && r.fired[..|run.fired|] == run.fired
      && (e.onStart.Some? ==> r.fired[|run.fired|] == e.onStart.value)
      && (forall a :: a in e.animations && a.onStart.Some? ==> a.onStart.value in r.fired[|run.fired|..])
  {
    var r := Fire(run, Timer(t, FireEvent(registry, e)));
    assert r.fired[|run.fired|..] == e.onStart.ToSeq() + AnimStarts(e.animations);
  }

  /** No animation of the list carries a callback. */
  predicate SilentAnimations<C>(anims: seq<Animation<C>>) {
    forall i :: 0 <= i < |anims| ==> anims[i].onStart.None? && anims[i].onComplete.None?
  }

  lemma {:induction false} SilentAnimationsSchedule<C>(t: int, anims: seq<Animation<C>>)
    requires SilentAnimations(anims)
    ensures AnimCompletions(t, anims) == [] && AnimStarts(anims) == []
  {
    if |anims| > 0 {
      SilentAnimationsSchedule(t, anims[1..]);
    }
  }

  /** Firing an event whose animations carry no callbacks schedules at most
      the event's own completion timer and invokes at most its `onStart`. */
  lemma FireSilentAnimations<C>(run: Run<C>, t: int, registry: Registry, e: Event<C>)
    requires SilentAnimations(e.animations)
    ensures var r := Fire(run, Timer(t, FireEvent(registry, e)));
      && r.pending == run.pending + EventCompletion(t, e)
      && r.fired == run.fired + e.onStart.ToSeq()
      && r.isPlaying == run.isPlaying
  {
    SilentAnimationsSchedule(t, e.animations);
  }

  /** The animation map only decides styles: with an unknown key (or any
      other registry) the same callbacks fire and the same timers are
      scheduled. */
  lemma RegistryOnlyAffectsStyles<C>(run: Run<C>, t: int, r1: Registry, r2: Registry, e: Event<C>)
    ensures Fire(run, Timer(t, FireEvent(r1, e))).pending == Fire(run, Timer(t, FireEvent(r2, e))).pending
    ensures Fire(run, Timer(t, FireEvent(r1, e))).fired == Fire(run, Timer(t, FireEvent(r2, e))).fired
    ensures Fire(run, Timer(t, FireEvent(r1, e))).active.Keys == Fire(run, Timer(t, FireEvent(r2, e))).active.Keys
  {
  }

  /** Run completion stops playing, clears the active map and invokes the
      hook's `onComplete` once. */
  lemma FinishRunEffect<C>(run: Run<C>, t: int, cb: Option<C>)
    ensures var r := Fire(run, Timer(t, FinishRun(cb)));
      && !r.isPlaying && r.active == map[] && r.pending == run.pending
      && r.fired == run.fired + cb.ToSeq()
  {
  }

  // ---------------------------------------------------------------------
  // The queue

  /** Number of pending event timers: the measure that makes `Tick` end. */
  function EventTimerCount<C>(p: seq<Timer<C>>): nat {
    if |p| == 0 then 0 else (if p[0].action.FireEvent? then 1 else 0) + EventTimerCount(p[1..])
  }

  lemma {:induction false} EventTimerCountAppend<C>(p: seq<Timer<C>>, q: seq<Timer<C>>)
    ensures EventTimerCount(p + q) == EventTimerCount(p) + EventTimerCount(q)
  {
    if |p| == 0 {
      assert p + q == q;
    } else {
      assert (p + q)[1..] == p[1..] + q;
      EventTimerCountAppend(p[1..], q);
    }
  }

  lemma {:induction false} EventTimerCountNone<C>(p: seq<Timer<C>>)
    requires forall k :: 0 <= k < |p| ==> !p[k].action.FireEvent?
    ensures EventTimerCount(p) == 0
  {
    if |p| > 0 {
      EventTimerCountNone(p[1..]);
    }
  }

  /** `s` without its element at index `i`. */
  function Remove<T>(s: seq<T>, i: nat): (r: seq<T>)
    requires i < |s|
    ensures |r| == |s| - 1
    ensures forall k :: 0 <= k < i ==> r[k] == s[k]
    ensures forall k :: i <= k < |r| ==> r[k] == s[k + 1]
  {
    s[..i] + s[i + 1..]
  }

  lemma {:induction false} EventTimerCountRemove<C>(p: seq<Timer<C>>, i: nat)
    requires i < |p|
    ensures EventTimerCount(Remove(p, i)) + (if p[i].action.FireEvent? then 1 else 0) == EventTimerCount(p)
  {
    if i == 0 {
      assert Remove(p, 0) == p[1..];
    } else {
      var r := Remove(p, i);
      assert r[0] == p[0] && r[1..] == Remove(p[1..], i - 1);
      EventTimerCountRemove(p[1..], i - 1);
    }
  }

  /** The timer that fires next: the earliest due, the first queued among
      equal due times. */
  function Earliest<C>(pending: seq<Timer<C>>): (i: nat)
    requires |pending| > 0
    ensures i < |pending|
    ensures forall k :: 0 <= k < |pending| ==> pending[i].due <= pending[k].due
    ensures forall k :: 0 <= k < i ==> pending[k].due > pending[i].due
  {
    if |pending| == 1 then 0
    else
      var j := Earliest(pending[1..]);
      if pending[0].due <= pending[j + 1].due then 0 else j + 1
  }

  /** Takes the `i`-th pending timer off the queue and fires it. */
  function Step<C>(run: Run<C>, i: nat): (r: Run<C>)
    requires i < |run.pending|
    ensures EventTimerCount(r.pending) < EventTimerCount(run.pending)
      || (EventTimerCount(r.pending) == EventTimerCount(run.pending) && |r.pending| < |run.pending|)
    ensures forall k :: 0 <= k < |run.pending| && k != i ==> run.pending[k] in r.pending
    ensures r.pending == Remove(run.pending, i) + Scheduled(run.pending[i])
    ensures run.fired <= r.fired
    ensures r.isPlaying ==> run.isPlaying
  {
    var r := Fire(run.(pending := Remove(run.pending, i)), run.pending[i]);
    FireAppends(run.(pending := Remove(run.pending, i)), run.pending[i]);
    StepMeasure(run.pending, i, r.pending);
    r
  }

  /** What firing a timer adds to the queue: the completion timers of an
      event, nothing for the other actions. */
  function Scheduled<C>(timer: Timer<C>): (ts: seq<Timer<C>>)
    ensures forall k :: 0 <= k < |ts| ==> ts[k].action.Invoke?
    ensures !timer.action.FireEvent? ==> ts == []
  {
    match timer.action
    case FireEvent(_, e) => AnimCompletions(timer.due, e.animations) + EventCompletion(timer.due, e)
    case _ => []
  }

  /** Firing appends to the queue and to the callback log, and can only
      stop the run. */
  lemma FireAppends<C>(run: Run<C>, timer: Timer<C>)
    ensures Fire(run, timer).pending == run.pending + Scheduled(timer)
    ensures run.fired <= Fire(run, timer).fired
    ensures Fire(run, timer).isPlaying ==> run.isPlaying
  {
  }

  /** Taking timer `i` off the queue and adding what it schedules lowers the
      termination measure of `Tick`, and keeps every other timer. */
  lemma StepMeasure<C>(pending: seq<Timer<C>>, i: nat, after: seq<Timer<C>>)
    requires i < |pending|
    requires after == Remove(pending, i) + Scheduled(pending[i])
    ensures EventTimerCount(after) < EventTimerCount(pending)
      || (EventTimerCount(after) == EventTimerCount(pending) && |after| < |pending|)
    ensures forall k :: 0 <= k < |pending| && k != i ==> pending[k] in after
  {
    var rest := Remove(pending, i);
    var added := Scheduled(pending[i]);
    EventTimerCountRemove(pending, i);
    EventTimerCountNone(added);
    EventTimerCountAppend(rest, added);
    RemoveKeeps(pending, i, added);
  }

  /** Removing the element at `i` and appending keeps every other element. */
  lemma RemoveKeeps<T>(s: seq<T>, i: nat, extra: seq<T>)
    requires i < |s|
    ensures forall k :: 0 <= k < |s| && k != i ==> s[k] in Remove(s, i) + extra
  {
    var r := Remove(s, i) + extra;
    forall k | 0 <= k < |s| && k != i
      ensures s[k] in r
    {
      if k < i {
        assert r[k] == s[k];
      } else {
        assert r[k - 1] == s[k];
      }
    }
  }

  /** The timers of `p` not yet due at `now`, in queue order, each as often
      as it is queued. */
  function Later<C>(p: seq<Timer<C>>, now: int): (q: seq<Timer<C>>)
    ensures |q| <= |p|
    ensures forall k :: 0 <= k < |q| ==> q[k].due > now && q[k] in p
    ensures forall k :: 0 <= k < |p| && p[k].due > now ==> p[k] in q
  {
    if |p| == 0 then []
    else (if p[0].due > now then [p[0]] else []) + Later(p[1..], now)
  }

  lemma {:induction false} LaterAppend<C>(p: seq<Timer<C>>, q: seq<Timer<C>>, now: int)
    ensures Later(p + q, now) == Later(p, now) + Later(q, now)
  {
    if |p| == 0 {
      assert p + q == q;
    } else {
      assert (p + q)[0] == p[0];
      assert (p + q)[1..] == p[1..] + q;
      LaterAppend(p[1..], q, now);
    }
  }

  /** Taking a due timer off the queue leaves the later timers as they were. */
  lemma {:induction false} LaterRemove<C>(p: seq<Timer<C>>, i: nat, now: int)
    requires i < |p| && p[i].due <= now
    ensures Later(Remove(p, i), now) == Later(p, now)
  {
    if i == 0 {
      assert Remove(p, 0) == p[1..];
    } else {
      var r := Remove(p, i);
      assert r[0] == p[0] && r[1..] == Remove(p[1..], i - 1);
      LaterRemove(p[1..], i - 1, now);
    }
  }

  lemma {:induction false} LaterAllDue<C>(p: seq<Timer<C>>, now: int)
    requires forall k :: 0 <= k < |p| ==> p[k].due > now
    ensures Later(p, now) == p
  {
    if |p| > 0 {
      LaterAllDue(p[1..], now);
      assert [p[0]] + p[1..] == p;
    }
  }

  /** Firing a due timer keeps the later timers, in order: whatever keeps
      the later timers of the queue after the step keeps those before it. */
  lemma LaterStep<C>(p: seq<Timer<C>>, i: nat, now: int, after: seq<Timer<C>>, rest: seq<Timer<C>>)
    requires i < |p| && p[i].due <= now
    requires after == Remove(p, i) + Scheduled(p[i])
    requires Later(after, now) <= rest
    ensures Later(p, now) <= rest
  {
    LaterRemove(p, i, now);
    LaterAppend(Remove(p, i), Scheduled(p[i]), now);
  }

  /** Advances the clock to `now`: fires, earliest first, every timer due by
      `now`, including timers that firing schedules within that window. */
  function Tick<C>(run: Run<C>, now: int): (r: Run<C>)
    ensures forall k :: 0 <= k < |r.pending| ==> r.pending[k].due > now
    ensures forall k :: 0 <= k < |run.pending| && run.pending[k].due > now ==> run.pending[k] in r.pending
    ensures Later(run.pending, now) <= r.pending
    ensures (forall k :: 0 <= k < |run.pending| ==> run.pending[k].due > now) ==> r == run
    ensures run.fired <= r.fired
    ensures r.isPlaying ==> run.isPlaying
    decreases EventTimerCount(run.pending), |run.pending|
  {
    if |run.pending| == 0 then run
    else
      var i := Earliest(run.pending);
      if run.pending[i].due > now then
        LaterAllDue(run.pending, now);
        run
      else
        var next := Step(run, i);
        var r := Tick(next, now);
        LaterStep(run.pending, i, now, next.pending, r.pending);
        assert forall k :: 0 <= k < |run.pending| && run.pending[k].due > now ==> k != i && run.pending[k] in next.pending;
        r
  }

  /** The first pending timer fires an event without callbacks and is due
      before every other: firing it takes it off the queue and adds at most
      the event's own completion timer, and from its due time on the clock
      runs as if the queue had been `next` from the start. */
  lemma StepQuietEvent<C>(run: Run<C>, t: int, registry: Registry, e: Event<C>, rest: seq<Timer<C>>)
      returns (next: Run<C>)
    requires run.pending == [Timer(t, FireEvent(registry, e))] + rest
    requires forall k :: 0 <= k < |rest| ==> t < rest[k].due
    requires SilentAnimations(e.animations) && e.onStart.None?
    ensures next.pending == rest + EventCompletion(t, e)
    ensures next.fired == run.fired && next.isPlaying == run.isPlaying
    ensures forall now :: t <= now ==> Tick(run, now) == Tick(next, now)
  {
    assert Remove(run.pending, 0) == rest;
    FireSilentAnimations(run.(pending := rest), t, registry, e);
    assert Earliest(run.pending) == 0;
    next := Step(run, 0);
  }

  /** The earliest pending timer, at index `i`, invokes a callback: from its
      due time on, the clock runs as if it had already fired. */
  lemma StepInvoke<C>(run: Run<C>, i: nat, t: int, cb: C) returns (next: Run<C>)
    requires i < |run.pending| && run.pending[i] == Timer(t, Invoke(cb))
    requires forall k :: 0 <= k < |run.pending| && k != i ==> t < run.pending[k].due
    ensures next.pending == Remove(run.pending, i)
    ensures next.fired == run.fired + [cb] && next.isPlaying == run.isPlaying
    ensures forall now :: t <= now ==> Tick(run, now) == Tick(next, now)
  {
    assert Earliest(run.pending) == i;
    next := Step(run, i);
  }

  /** The last queued timer invokes a callback and is due before every other
      one: nothing fires before it, and at its due time exactly it fires. */
  lemma StepInvokeLast<C>(run: Run<C>, rest: seq<Timer<C>>, t: int, cb: C) returns (next: Run<C>)
    requires run.pending == rest + [Timer(t, Invoke(cb))]
    requires forall k :: 0 <= k < |rest| ==> t < rest[k].due
    ensures Tick(run, t - 1) == run
    ensures Tick(run, t) == next
    ensures next.pending == rest && next.fired == run.fired + [cb] && next.isPlaying == run.isPlaying
    ensures forall now :: t <= now ==> Tick(run, now) == Tick(next, now)
  {
    assert forall k :: 0 <= k < |rest| ==> run.pending[k] == rest[k];
    assert run.pending[|rest|] == Timer(t, Invoke(cb));
    next := StepInvoke(run, |rest|, t, cb);
    assert Remove(run.pending, |rest|) == rest;
    assert Tick(next, t) == next;
  }

  /** The last pending timer completes the run once the clock reaches it. */
  lemma StepFinish<C>(run: Run<C>, t: int, cb: Option<C>) returns (next: Run<C>)
    requires run.pending == [Timer(t, FinishRun(cb))]
    ensures next.pending == [] && next.fired == run.fired + cb.ToSeq()
    ensures !next.isPlaying && next.active == map[]
    ensures forall now :: t <= now ==> Tick(run, now) == next
  {
    next := Step(run, 0);
  }

  /** Advancing the clock in two steps is the same as advancing it at once. */
  lemma {:induction false} TickCompose<C>(run: Run<C>, t1: int, t2: int)
    requires t1 <= t2
    ensures Tick(Tick(run, t1), t2) == Tick(run, t2)
    decreases EventTimerCount(run.pending), |run.pending|
  {
    if |run.pending| == 0 {
    } else {
      var i := Earliest(run.pending);
      if run.pending[i].due > t1 {
      } else {
        TickCompose(Step(run, i), t1, t2);
      }
    }
  }

  // ---------------------------------------------------------------------
  // play / stop

  /** One timer per event, due `event.at` after `now`, in timeline order. */
  function EventTimers<C>(registry: Registry, timeline: seq<Event<C>>, now: int): (ts: seq<Timer<C>>)
    ensures |ts| == |timeline|
    ensures forall i :: 0 <= i < |timeline| ==>
      ts[i] == Timer(now + TimerDelay(Finite(timeline[i].at)), FireEvent(registry, timeline[i]))
  {
    seq(|timeline|, i requires 0 <= i < |timeline| =>
      Timer(now + TimerDelay(Finite(timeline[i].at)), FireEvent(registry, timeline[i])))
  }

  /** `play()` at time `now`. While a run is playing it does nothing.
      Otherwise it discards every pending timer, empties the active map and
      schedules each event at its own absolute offset `at` (not relative to
      its neighbours) and the run completion after the total duration plus
      the settle buffer. */
  function Play<C>(run: Run<C>, cfg: Config<C>, now: int): (r: Run<C>)
    ensures run.isPlaying ==> r == run
    ensures !run.isPlaying ==> r.isPlaying && r.active == map[] && r.fired == run.fired
    ensures !run.isPlaying ==> |r.pending| == |cfg.timeline| + 1
    ensures !run.isPlaying ==> forall i :: 0 <= i < |cfg.timeline| ==>
      r.pending[i].action == FireEvent(cfg.registry, cfg.timeline[i])
      && (cfg.timeline[i].at >= 0 ==> r.pending[i].due == now + cfg.timeline[i].at)
    ensures !run.isPlaying ==>
      r.pending[|cfg.timeline|] == Timer(now + CompletionDelay(cfg.timeline), FinishRun(cfg.onComplete))
  {
    if run.isPlaying then run
    else
      Run(true, map[],
          EventTimers(cfg.registry, cfg.timeline, now) + [Timer(now + CompletionDelay(cfg.timeline), FinishRun(cfg.onComplete))],
          run.fired)
  }

  /** A second `play()` right after the first changes nothing. */
  lemma PlayTwice<C>(run: Run<C>, cfg: Config<C>, now: int, later: int)
    ensures Play(Play(run, cfg, now), cfg, later) == Play(run, cfg, now)
  {
  }

  /** A started run holds exactly one completion timer. */
  lemma CompletionScheduledOnce<C>(run: Run<C>, cfg: Config<C>, now: int)
    requires !run.isPlaying
    ensures var r := Play(run, cfg, now);
      forall k :: 0 <= k < |r.pending| ==> (r.pending[k].action.FinishRun? <==> k == |cfg.timeline|)
  {
  }

  /** With non-negative offsets, delays and durations, every completion
      callback an event schedules is due at least the settle buffer before
      the run completes. */
  lemma CompletionAfterCallbacks<C>(timeline: seq<Event<C>>, now: int, i: nat, j: nat)
    requires i < |timeline| && j < |timeline[i].animations|
    requires timeline[i].at >= 0
    requires forall a :: a in timeline[i].animations ==> DelayOf(a) >= 0 && DurationOf(a) >= 0
    ensures var e := timeline[i];
      && now + e.at + TimerDelay(Finite(EndOf(e.animations[j]))) + SettleBuffer <= now + CompletionDelay(timeline)
      && now + e.at + TimerDelay(EventSpan(e)) + SettleBuffer <= now + CompletionDelay(timeline)
  {
    var e := timeline[i];
    var total := TotalDuration(timeline);
    assert e.animations[j] in e.animations;
    assert total.Finite? && e.at + EndOf(e.animations[j]) <= total.ms;
    var k :| 0 <= k < |e.animations| && EndOf(e.animations[k]) == EventSpan(e).ms;
    assert e.animations[k] in e.animations;
    assert e.at + EndOf(e.animations[k]) <= total.ms;
  }

  /** `stop()`: cancels every pending timer (including completion timers that
      fired events scheduled), stops playing and clears the map, without
      invoking the run's `onComplete`. Afterwards no clock advance changes
      anything. */
  function Stop<C>(run: Run<C>): (r: Run<C>)
    ensures !r.isPlaying && r.active == map[] && r.pending == []
    ensures r.fired == run.fired
    ensures forall now :: Tick(r, now) == r
  {
    Run(false, map[], [], run.fired)
  }

  lemma StopIdempotent<C>(run: Run<C>)
    ensures Stop(Stop(run)) == Stop(run)
  {
  }

  /** The unmount cleanup: cancels every pending timer but, unlike `stop`,
      leaves `isPlaying` and the active map as they are. */
  function Unmount<C>(run: Run<C>): (r: Run<C>)
    ensures r.pending == [] && r.isPlaying == run.isPlaying && r.active == run.active
    ensures r.fired == run.fired
    ensures forall now :: Tick(r, now) == r
  {
    run.(pending := [])
  }
}
