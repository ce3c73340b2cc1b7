# Animated button, timeline hook and todo list — a Dafny model

This project models four pieces of the front-end challenge repository.

- **The animation timeline hook** (`useAnimationTimeline`).
  - A timeline is a list of events. Each event has an absolute offset `at` and a list of per-target animations, each with an optional `delay` and `duration`.
  - `play()` schedules one timer per event plus a run-completion timer. Firing an event does three things:
    - merges the event's styles into the map of active animations;
    - invokes the `onStart` callbacks;
    - schedules the `onComplete` callbacks of the animations and of the event.
  - The run completes at the latest animation end plus a 500 ms settle buffer.
  - `stop()` cancels every pending timer.
  - The browser's `setTimeout` becomes a queue of timers on a virtual clock. `Tick(run, now)` fires every due timer, earliest first, with ties in queue order. Callbacks are opaque values appended to a log when invoked.
- **The animated button.**
  - The fixed `ANIMATION_MAP` and `ANIMATION_TIMELINE`, and the timeline's total duration of 3600 ms, so the run completes at 4100 ms.
  - The per-render rebuild that patches the "collapse text wrapper" event with the text swap.
  - The hook's `onComplete`.
  - `handleClick` and `handleKeyDown`.
  - The `disabled` expression and the accessible label.
  - The button's callbacks are lists of effects on its own state (`ShowText`, `MarkCompleted`). A click at time 0 is proved to swap the text at 800 ms and to complete the button at 4100 ms.
- **The todo app's list operations.** `addTodo`, `toggleTodo`, `deleteTodo`, the filtered view and `clearCompleted`, on an immutable sequence of records.
- **The todo form's submit rule.** The input is trimmed with `String.prototype.trim`. A blank input is ignored. Anything else is added once and the field is cleared.

Modules:

| module | file | source |
|---|---|---|
| `Wrappers` | wrappers.dfy | optional values |
| `AnimationTimeline` | animation_timeline.dfy | apps/animation-showcase/src/hooks/animationTimeline.ts |
| `AnimatedButton` | animated_button.dfy | apps/animation-showcase/src/components/AnimatedButton.tsx |
| `TodoApp` | todo_app.dfy | apps/bug-hunting/src/App.tsx |
| `TodoForm` | todo_form.dfy | apps/bug-hunting/src/components/TodoForm.tsx |

Some modelling choices:

- `Math.max()` over an empty list is `-Infinity` in JavaScript. It is modelled by the `Extended` datatype rather than excluded by a precondition.
  - An event without animations has span `-Infinity`, and its `onComplete` timer is clamped to a delay of 0.
  - A timeline without any animation completes after a delay of 0, because `-Infinity + 500` is clamped too.
- `setTimeout` clamps negative delays to 0 (`TimerDelay`).
- A timer scheduled while another fires is due relative to the firing timer's due time.

## Model

| member | source | states |
|---|---|---|
| AnimationTimeline.DurationOf | apps/animation-showcase/src/hooks/animationTimeline.ts:93 | an absent duration and an explicit 0 both become 300; any other value is kept |
| AnimationTimeline.DelayOf | apps/animation-showcase/src/hooks/animationTimeline.ts:94 | an absent delay is 0, a present one is kept |
| AnimationTimeline.MaxOf | apps/animation-showcase/src/hooks/animationTimeline.ts:120-122 | `Math.max(...xs)` bounds every element and is one of them, or is `-Infinity` |
| AnimationTimeline.TimerDelay | apps/animation-showcase/src/hooks/animationTimeline.ts:124-127 | the delay a timer waits is the requested one when non-negative, else 0 |
| AnimationTimeline.EventSpan | apps/animation-showcase/src/hooks/animationTimeline.ts:120-122 | an event's span is `-Infinity` exactly when it has no animations; otherwise it is at least every `delay + duration` and equal to one of them |
| AnimationTimeline.EventEnd | apps/animation-showcase/src/hooks/animationTimeline.ts:139-146 | `event.at` plus the span bounds and attains the run-relative end of every animation of the event |
| AnimationTimeline.TotalDuration | apps/animation-showcase/src/hooks/animationTimeline.ts:137-148 | the total duration is `-Infinity` exactly when no event has an animation; otherwise it is the maximum over all events and animations of `at + delay + duration` |
| AnimationTimeline.TotalDurationIs | apps/animation-showcase/src/hooks/animationTimeline.ts:137-148 | a value that every animation end stays below and one end attains is the total duration |
| AnimationTimeline.SameTimingSameDuration | apps/animation-showcase/src/hooks/animationTimeline.ts:137-148 | the total duration depends only on the offsets and the animations, not on names or callbacks |
| AnimationTimeline.CreateAnimationStyle | apps/animation-showcase/src/hooks/animationTimeline.ts:38-52 | an unknown key gives the empty style; a known key gives its keyframes with the given duration and delay, always with easing `ease` |
| AnimationTimeline.NewStyles | apps/animation-showcase/src/hooks/animationTimeline.ts:86-114 | the styles an event builds have one entry per target of its animations |
| AnimationTimeline.TargetsExact | apps/animation-showcase/src/hooks/animationTimeline.ts:98 | every key of the built styles is the target of some animation |
| AnimationTimeline.NewStylesLastWins | apps/animation-showcase/src/hooks/animationTimeline.ts:91-103 | within one event the last animation on a target decides that target's style |
| AnimationTimeline.FireEventMerge | apps/animation-showcase/src/hooks/animationTimeline.ts:86-116 | firing an event overrides exactly its targets in the active map; other targets keep their entries and the playing flag is unchanged |
| AnimationTimeline.RegistryOnlyAffectsStyles | apps/animation-showcase/src/hooks/animationTimeline.ts:45-46 | the animation map, including a missing key, changes no callback, no timer and no target of the merge |
| AnimationTimeline.Idle | apps/animation-showcase/src/hooks/animationTimeline.ts:64-68 | the hook starts not playing, with an empty map and no timers |
| AnimationTimeline.AnimStarts | apps/animation-showcase/src/hooks/animationTimeline.ts:96 | every animation `onStart` that is set is invoked when the event fires |
| AnimationTimeline.AnimStartsOne | apps/animation-showcase/src/hooks/animationTimeline.ts:96 | one animation invokes its `onStart` if set, and nothing else |
| AnimationTimeline.AnimStartsConcat | apps/animation-showcase/src/hooks/animationTimeline.ts:91-96 | the animations' `onStart` callbacks are invoked in array order, so with `AnimStartsOne` exactly the set ones, once each |
| AnimationTimeline.AnimCompletions | apps/animation-showcase/src/hooks/animationTimeline.ts:106-112 | the timers animations schedule only invoke callbacks |
| AnimationTimeline.AnimCompletionsOne | apps/animation-showcase/src/hooks/animationTimeline.ts:106-112 | one animation schedules one timer for its `onComplete`, due `delay + duration` after the event fires, if set, and nothing else |
| AnimationTimeline.AnimCompletionsConcat | apps/animation-showcase/src/hooks/animationTimeline.ts:91-112 | the animations' completion timers are queued in array order, so with `AnimCompletionsOne` one timer per set `onComplete`, and timers due together fire in array order |
| AnimationTimeline.AnimCompletionsContents | apps/animation-showcase/src/hooks/animationTimeline.ts:106-112 | exactly the animations with an `onComplete` get a timer, due `delay + duration` after the event fires |
| AnimationTimeline.EventCompletion | apps/animation-showcase/src/hooks/animationTimeline.ts:119-130 | an event with an `onComplete` gets one timer, due after its longest `delay + duration`; an event without gets none |
| AnimationTimeline.FireEventSchedules | apps/animation-showcase/src/hooks/animationTimeline.ts:105-130 | firing an event keeps every pending timer and appends exactly its animations' completion timers in array order, then its own completion timer if it has an `onComplete` |
| AnimationTimeline.Fire | apps/animation-showcase/src/hooks/animationTimeline.ts:82-155 | the action of one timer: an event timer merges styles, logs the `onStart` callbacks and queues completions (`FireEventMerge`, `FireEventStarts`, `FireEventSchedules`); a callback timer logs it once (`StepInvoke`); the run-completion timer stops the run (`FinishRunEffect`) |
| AnimationTimeline.FireEventStarts | apps/animation-showcase/src/hooks/animationTimeline.ts:82-96 | firing an event appends to the log exactly its `onStart`, if set, followed by its animations' `onStart` callbacks in array order, and forgets nothing invoked before |
| AnimationTimeline.FireSilentAnimations | apps/animation-showcase/src/hooks/animationTimeline.ts:82-131 | an event whose animations carry no callbacks schedules only its own completion and invokes only its own `onStart` |
| AnimationTimeline.FinishRunEffect | apps/animation-showcase/src/hooks/animationTimeline.ts:151-155 | run completion stops playing, empties the map and invokes the hook's `onComplete` once |
| AnimationTimeline.Scheduled | apps/animation-showcase/src/hooks/animationTimeline.ts:106-130 | only an event timer schedules further timers, and those only invoke callbacks |
| AnimationTimeline.FireAppends | apps/animation-showcase/src/hooks/animationTimeline.ts:82-131 | firing a timer appends to the queue and to the callback log, and can only stop the run |
| AnimationTimeline.CompletionDelay | apps/animation-showcase/src/hooks/animationTimeline.ts:137-157 | the run-completion timer waits the total duration plus 500 ms, clamped at 0; every completion timer is due no later than 500 ms before it (`CompletionAfterCallbacks`) |
| AnimationTimeline.Earliest | apps/animation-showcase/src/hooks/animationTimeline.ts:82-131 | the next timer to fire is due no later than any other and is queued first among equals |
| AnimationTimeline.Step | apps/animation-showcase/src/hooks/animationTimeline.ts:82-131 | firing one timer leaves exactly the other timers, in order and as often as queued, followed by the timers it schedules; the log only grows, and the clock's termination measure drops |
| AnimationTimeline.StepMeasure | apps/animation-showcase/src/hooks/animationTimeline.ts:106-130 | nested timers never fire events, so each step lowers the number of pending event timers, or keeps it and shortens the queue |
| AnimationTimeline.Later | apps/animation-showcase/src/hooks/animationTimeline.ts:81-134 | the timers of a queue not yet due at `now`, in queue order and with their multiplicity: the reference for what `Tick` keeps |
| AnimationTimeline.LaterRemove | apps/animation-showcase/src/hooks/animationTimeline.ts:81-134 | taking a due timer off the queue leaves the timers not yet due exactly as they were |
| AnimationTimeline.Tick | apps/animation-showcase/src/hooks/animationTimeline.ts:81-134 | after advancing to `now` nothing due remains; the timers not yet due stay queued as a prefix, in order and each as often as before (`Later`); the log only grows, and an advance with nothing due changes nothing |
| AnimationTimeline.TickCompose | apps/animation-showcase/src/hooks/animationTimeline.ts:81-134 | advancing the clock to `t1` and then to `t2` equals advancing it to `t2` at once |
| AnimationTimeline.StepQuietEvent | apps/animation-showcase/src/hooks/animationTimeline.ts:82-131 | the earliest timer, an event without callbacks, fires at its due time and leaves only the event's completion timer behind |
| AnimationTimeline.StepInvoke | apps/animation-showcase/src/hooks/animationTimeline.ts:124-127 | the earliest timer, a completion callback, is invoked once at its due time and leaves the queue |
| AnimationTimeline.StepInvokeLast | apps/animation-showcase/src/hooks/animationTimeline.ts:124-127 | a callback timer queued last but due first fires at its due time and not a millisecond earlier, leaving the rest of the queue |
| AnimationTimeline.StepFinish | apps/animation-showcase/src/hooks/animationTimeline.ts:151-155 | the last timer completes the run when the clock reaches it |
| AnimationTimeline.EventTimers | apps/animation-showcase/src/hooks/animationTimeline.ts:81-134 | one timer per event, in timeline order, each due at its own absolute offset from `play` |
| AnimationTimeline.Play | apps/animation-showcase/src/hooks/animationTimeline.ts:70-158 | `play` does nothing while playing; otherwise it starts playing, empties the map, drops every old timer, and queues each event at `now + at` and the completion at `now` plus total duration plus 500 |
| AnimationTimeline.PlayTwice | apps/animation-showcase/src/hooks/animationTimeline.ts:71 | a second `play` during a run changes nothing |
| AnimationTimeline.CompletionScheduledOnce | apps/animation-showcase/src/hooks/animationTimeline.ts:150-157 | a started run holds exactly one run-completion timer, after the event timers |
| AnimationTimeline.CompletionAfterCallbacks | apps/animation-showcase/src/hooks/animationTimeline.ts:136-157 | with non-negative timings every animation and event completion is due at least 500 ms before the run completes |
| AnimationTimeline.Stop | apps/animation-showcase/src/hooks/animationTimeline.ts:160-165 | a `stop` issued between timers cancels every timer, including nested ones, stops playing, empties the map and invokes nothing, now or later |
| AnimationTimeline.StopIdempotent | apps/animation-showcase/src/hooks/animationTimeline.ts:160-165 | stopping twice equals stopping once |
| AnimationTimeline.Unmount | apps/animation-showcase/src/hooks/animationTimeline.ts:167-172 | the unmount cleanup cancels every timer but leaves the playing flag and the map as they are |
| AnimatedButton.DefaultProps | apps/animation-showcase/src/components/AnimatedButton.tsx:414-428 | the completion text defaults to "Completed!", animation is off and completion is announced |
| AnimatedButton.Mount | apps/animation-showcase/src/components/AnimatedButton.tsx:429-433 | a mounted button is untriggered, not completed, shows its children, has no announcement and no clicks, keeps the reduced-motion flag it was mounted with, and has an idle hook: not playing, no styles, no timers, empty log |
| AnimatedButton.TimelineKeysKnown | apps/animation-showcase/src/components/AnimatedButton.tsx:100-179 | every animation of the fixed timeline names a key of the animation map |
| AnimatedButton.TimelineDuration | apps/animation-showcase/src/components/AnimatedButton.tsx:111-179 | the fixed timeline's total duration is 3600 ms, so its run completes 4100 ms after `play` |
| AnimatedButton.FindEvent | apps/animation-showcase/src/components/AnimatedButton.tsx:467-469 | the search returns the first event with the name, or nothing when no event has it |
| AnimatedButton.Rebuild | apps/animation-showcase/src/components/AnimatedButton.tsx:458-479 | the rebuild keeps every event's name, offset, animations and `onStart`; only the first collapse event changes, getting its original `onComplete` followed by the text swap |
| AnimatedButton.RebuildKeepsDuration | apps/animation-showcase/src/components/AnimatedButton.tsx:458-479 | the rebuilt timeline has the same total duration as the fixed one |
| AnimatedButton.HookConfig | apps/animation-showcase/src/components/AnimatedButton.tsx:481-493 | the hook gets the animation map, the rebuilt timeline and an `onComplete` that marks the button completed (`RebuiltTimeline`, `RunCompletionCompletes`) |
| AnimatedButton.TextSwapAt800 | apps/animation-showcase/src/components/AnimatedButton.tsx:466-476 | the patched event is the collapse event at 500 ms, its completion is the text swap, and it settles 800 ms after `play` |
| AnimatedButton.RebuiltTimeline | apps/animation-showcase/src/components/AnimatedButton.tsx:457-479 | the rebuilt timeline's events are at 200, 500, 1000, 3000 and 3300 ms, none invokes a callback when it fires, and only the collapse event has an `onComplete` |
| AnimatedButton.RebuiltCompletionDelay | apps/animation-showcase/src/components/AnimatedButton.tsx:457-493 | the hook completes a run of the rebuilt timeline 4100 ms after it starts |
| AnimatedButton.RunCompletionCompletes | apps/animation-showcase/src/components/AnimatedButton.tsx:485-492 | the hook's `onComplete` marks the button completed and announces the completion text only when announcing |
| AnimatedButton.PlayQueue | apps/animation-showcase/src/components/AnimatedButton.tsx:481-484 | playing the rebuilt timeline at 0 queues its five events at their offsets and the completion at 4100 ms |
| AnimatedButton.EventQueue | apps/animation-showcase/src/components/AnimatedButton.tsx:111-179 | the event timers of the five events are due at 200, 500, 1000, 3000 and 3300 ms |
| AnimatedButton.OpeningEvents | apps/animation-showcase/src/components/AnimatedButton.tsx:115-140 | the first two events fire silently by 500 ms and leave the text swap queued for 800 ms |
| AnimatedButton.SwapPhase | apps/animation-showcase/src/components/AnimatedButton.tsx:470-476 | the text swap fires at 800 ms and not at 799 |
| AnimatedButton.SecondPhase | apps/animation-showcase/src/components/AnimatedButton.tsx:141-179 | the last three events fire silently and the run completes at 4100 ms and not at 4099 |
| AnimatedButton.PlayRebuilt | apps/animation-showcase/src/components/AnimatedButton.tsx:457-493 | on a run of the rebuilt timeline, nothing fires before 800 ms, the swap fires at 800, and the hook's `onComplete` fires at 4100 and not before |
| AnimatedButton.SettleRun | apps/animation-showcase/src/components/AnimatedButton.tsx:472-487 | applying the swap sets the completion text; applying the swap then the run completion also marks the button completed |
| AnimatedButton.ClickPlaysToCompletion | apps/animation-showcase/src/components/AnimatedButton.tsx:495-519 | a click on an animated button keeps the children until 799 ms, shows the completion text from 800 ms, is still playing and uncompleted at 4099 ms, and at 4100 ms is completed, stopped and has an empty map |
| AnimatedButton.CompleteNow | apps/animation-showcase/src/components/AnimatedButton.tsx:509-517 | the reduced-motion path shows the completion text, marks the button completed and announces only when announcing, leaving the hook alone |
| AnimatedButton.Click | apps/animation-showcase/src/components/AnimatedButton.tsx:495-519 | a triggered or playing button ignores clicks; otherwise a click triggers it and calls `onClick` once, plays when animated without reduced motion and changes nothing else, completes at once when animated with reduced motion, and does nothing else when not animated |
| AnimatedButton.KeyDown | apps/animation-showcase/src/components/AnimatedButton.tsx:532-557 | only Space or Enter on an animated, untriggered, not-playing button acts; it triggers the button, calls `onClick` once, and either plays and changes nothing else, or, with reduced motion, completes at once |
| AnimatedButton.TriggeredIsFinal | apps/animation-showcase/src/components/AnimatedButton.tsx:495-557 | after a triggering click or key press every later click and key press changes nothing |
| AnimatedButton.Disabled | apps/animation-showcase/src/components/AnimatedButton.tsx:588 | the computed `disabled` expression; `DisabledWhen` states when it holds |
| AnimatedButton.RenderedDisabled | apps/animation-showcase/src/components/AnimatedButton.tsx:588-597 | the attribute as rendered after the spread: a passed `disabled` key wins; `RenderedDisabledOverridden` and `RenderedDisabledAgrees` state when it differs from the computed one |
| AnimatedButton.DisabledWhen | apps/animation-showcase/src/components/AnimatedButton.tsx:588 | the button is disabled while playing, once triggered, or when the caller disables it, and a click always leaves it disabled |
| AnimatedButton.RenderedDisabledOverridden | apps/animation-showcase/src/components/AnimatedButton.tsx:588-597 | with `disabled={false}` or an explicit `disabled={undefined}` passed, a clicked, playing button is rendered enabled because the spread replaces the computed attribute |
| AnimatedButton.RenderedDisabledAgrees | apps/animation-showcase/src/components/AnimatedButton.tsx:588-597 | when the caller leaves `disabled` out or passes `true`, the rendered attribute is the computed one |
| AnimatedButton.AccessibleLabel | apps/animation-showcase/src/components/AnimatedButton.tsx:570-577 | a non-empty `ariaLabel` is the label; otherwise the label starts with the children and is exactly the children only with no icon and not triggered |
| AnimatedButton.LabelSuffix | apps/animation-showcase/src/components/AnimatedButton.tsx:573-577 | the derived label adds nothing exactly when there is no icon and the button is untriggered |
| AnimatedButton.LabelWording | apps/animation-showcase/src/components/AnimatedButton.tsx:573-577 | the derived labels read "<children>, completed", "<children>, click to complete" and "<children> (completed)" |
| AnimatedButton.LabelReflectsTrigger | apps/animation-showcase/src/components/AnimatedButton.tsx:571-577 | without an `ariaLabel` the label differs before and after triggering |
| TodoApp.Filter | apps/bug-hunting/src/App.tsx:29 | `filter` returns only passing elements and every passing element of the input, in input order |
| TodoApp.FilterCounts | apps/bug-hunting/src/App.tsx:29 | `filter` keeps each passing element as often as it occurs and drops every other |
| TodoApp.FilterIdempotent | apps/bug-hunting/src/App.tsx:42 | filtering twice with the same predicate equals filtering once |
| TodoApp.AddTodo | apps/bug-hunting/src/App.tsx:12-15 | `addTodo` appends one incomplete item with the given text and id and keeps the list before it |
| TodoApp.AddFresh | apps/bug-hunting/src/App.tsx:12-30 | with a fresh id the ids stay unique, and deleting the new item restores the list |
| TodoApp.ToggleTodo | apps/bug-hunting/src/App.tsx:17-26 | `toggleTodo` keeps length, order, ids and texts, and flips `completed` exactly on the items with the id |
| TodoApp.ToggleTwice | apps/bug-hunting/src/App.tsx:17-26 | toggling the same id twice restores the list |
| TodoApp.ToggleAbsent | apps/bug-hunting/src/App.tsx:17-26 | toggling an id no item has changes nothing |
| TodoApp.DeleteTodo | apps/bug-hunting/src/App.tsx:28-30 | `deleteTodo` removes every item with the id and keeps every occurrence of all others, in order |
| TodoApp.Visible | apps/bug-hunting/src/App.tsx:32-39 | the active view holds exactly the incomplete items, the completed view exactly the completed ones, and `all` the whole list, each in order |
| TodoApp.ViewsPartition | apps/bug-hunting/src/App.tsx:33-37 | the active and completed views together are as long as the list |
| TodoApp.ClearCompleted | apps/bug-hunting/src/App.tsx:41-43 | `clearCompleted` keeps every occurrence of the incomplete items and nothing else, in order |
| TodoApp.ClearCompletedIsActiveView | apps/bug-hunting/src/App.tsx:41-43 | clearing yields the active view, and a second clear changes nothing |
| TodoForm.IsWhitespace | apps/bug-hunting/src/components/TodoForm.tsx:9 | the characters `trim` strips all lie in the Basic Multilingual Plane and include no ASCII letter or digit |
| TodoForm.LeadingWhitespace | apps/bug-hunting/src/components/TodoForm.tsx:9 | the whitespace prefix `trim` removes at the start |
| TodoForm.TrailingWhitespace | apps/bug-hunting/src/components/TodoForm.tsx:9 | the whitespace suffix `trim` removes at the end |
| TodoForm.Trim | apps/bug-hunting/src/components/TodoForm.tsx:9 | `trim` returns the input without whitespace at either end, padded by only whitespace in the input, and empty exactly when the input is all whitespace |
| TodoForm.TrimTrimmed | apps/bug-hunting/src/components/TodoForm.tsx:10 | a value without surrounding whitespace trims to itself |
| TodoForm.TrimIdempotent | apps/bug-hunting/src/components/TodoForm.tsx:9-10 | trimming twice equals trimming once |
| TodoForm.Submit | apps/bug-hunting/src/components/TodoForm.tsx:6-15 | a blank input adds nothing and keeps the field; otherwise the trimmed, non-empty text is added once and the field is cleared |
| TodoForm.SubmitTrimmed | apps/bug-hunting/src/components/TodoForm.tsx:10 | an already trimmed, non-empty value is added unchanged |
| TodoForm.SubmitTodo | apps/bug-hunting/src/components/TodoForm.tsx:9-11 | a submit wired to `addTodo` leaves list and field alone for blank input, and otherwise appends one item with the trimmed text and clears the field |

## Left out

- The Playwright end-to-end specs: browser and network I/O.
- The showcase's demo page: static markup without logic.
- The styled-components CSS and keyframe bodies: keyframes are opaque values and a style is a record.
  - `calculateShadow` is floating-point arithmetic.
  - The THEME and SIZES tables are data.
- The `matchMedia` listener: host I/O. The reduced-motion preference is a field fixed when the button is mounted.
- The 1000 ms timeout that clears the announcement: the model keeps the announcement once it is set.
- The `resetOnPropsChange` effect (AnimatedButton.tsx:448-455): a React effect on prop changes, outside the click and keyboard machine.
- React's asynchronous state updates and stale closures: every state update takes effect at once.
  - A second click in the same render is not modelled.
  - The hook's `isPlaying` is read from the run itself.
- `crypto.randomUUID()`: the fresh id is a parameter of `AddTodo`, and its freshness is a premise of `AddFresh`.
- `e.preventDefault()`, the `onClick` event object, `aria-*` attributes other than the label, and `role`/`tabIndex`: DOM plumbing.
  - A caller's `onClick` is counted in `clicks`, not run.
  - The `{...props}` spread can also replace `onKeyDown`, `aria-label`, `aria-describedby`, `aria-live`, `aria-pressed`, `role` and `tabIndex`, which are not destructured at AnimatedButton.tsx:414-428. Only its effect on `disabled` is modelled. `onClick` is destructured, so the spread never carries it.
- Callbacks that call back into the hook: a callback is an opaque value appended to the log and cannot call `play` or `stop`. In the source the caller writes the callbacks and holds `stop`. An event `onStart` that calls `stop()` (animationTimeline.ts:83) would still see the rest of that firing run: the event's styles are merged into the cleared map (:116) and its completion timers are pushed into the fresh `timeoutsRef` (:105-130). `Stop` covers a `stop` issued between timers only.
- The TodoFilter, TodoItem and TodoList components: rendering and prop forwarding.
- Timer details of the browser:
  - fractional milliseconds;
  - the 2^31 ms overflow of `setTimeout`;
  - minimum-delay clamping of nested timers;
  - clock drift.

  Time is an unbounded integer.
- AnimationTimeline.Play: states the due time of an event only for a non-negative `at`. `EventTimers` clamps a negative offset to `now`, as `setTimeout` does.
- AnimationTimeline.Tick: its contract states exactly which timers not yet due stay pending, and that the log only grows. The timers that firing adds and the firing order are stated for single steps by `Step`, `StepQuietEvent`, `StepInvoke`, `StepInvokeLast` and `StepFinish` and applied to the button's run, not stated as a closed form for every queue.
- AnimatedButton.ClickPlaysToCompletion: covers a click at time 0 on a freshly mounted button without reduced motion, observed at 799, 800, 4099 and 4100 ms. Other start times shift every due time by the same amount.
- AnimatedButton.AccessibleLabel: `children` is a string. A React node rendered through a template literal is not modelled.
- TodoForm.Trim: Dafny characters are Unicode scalar values. Every code point `trim` strips lies in the Basic Multilingual Plane, so stripping them agrees with JavaScript's trimming of UTF-16 code units.

## Findings

| source | as written | input that shows it | evidently intended | confidence | as-written member | corrected member |
|---|---|---|---|---|---|---|
| apps/animation-showcase/src/components/AnimatedButton.tsx:588-597 | `disabled={isPlaying \|\| props.disabled \|\| hasBeenTriggered}` is followed by the `{...props}` spread, so a `disabled` passed by the caller replaces the computed value | an animated button rendered with `disabled={false}`, or with `disabled={undefined}` forwarded by a wrapper, and clicked once: it is triggered and playing, yet rendered enabled | the button stays disabled while playing and once triggered, whatever the caller passes | medium, not executed | AnimatedButton.RenderedDisabledOverridden | AnimatedButton.DisabledWhen |
