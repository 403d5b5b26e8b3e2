# Radio station controller

A Dafny model of the `Radio` controller in the Howler.js radio demo
(`build/intermediates/assets/debug/www/radio/radio.js`). The controller holds
a fixed list of internet radio stations. It lets one station be live at a time:

- The first time a station is played, it creates the station's Howl playback handle.
- Later plays of that station reuse the same handle.
- A handle is stopped, never destroyed.
- Clicking a station's row first calls `stop()` on the current station.
- It then calls `play(i)` unless the clicked station was the one playing. So clicking the playing station turns it off, and clicking any other station switches to it.

The model has two modules:

- `RadioSpec` (`radio_spec.dfy`) describes the controller on values. A
  `RadioState` holds, for each station, whether its handle exists (`loaded`,
  meaning `howl != null`), whether that handle reports `playing()`, and
  whether its row is displayed live (`active`). A count `created` records how
  many times `new Howl` has run for each station, so that reusing a handle
  and replacing it are different states. It also holds `index`, the station
  last told to play. There is one function per operation
  (`AfterPlay`, `AfterStop`, `AfterClick`, `AfterToggle`, `AfterStreamEnd`),
  plus `Step`/`Run` over sequences of calls. The lemmas state what the
  controller promises:
  - clicking the playing station turns it off;
  - clicking any other station switches to it;
  - only `play` creates a handle, and only for a station that has none; an
    existing handle is reused, so its count does not grow;
  - no call ever destroys a handle;
  - clicks keep an exclusivity invariant: every station that is lit or
    playing is the one at `index`.
- `RadioController` (`radio_controller.dfy`) is the `Radio` object as a class.
  It has the station list, the mutable fields `index`, `loaded`, `playing`
  and `active`, and the ghost count `created`. Each method is proved to change
  the object's state exactly as the matching `RadioSpec` function says. `Click`
  also proves that it keeps the invariant.

The Howl handle is two flags. Its `play()` sets `playing` and its `stop()`
clears it. Its `playing()` query reads the flag. A stream that stops by itself
(because it ended or failed) is the `StreamEnded` event.

Two points of the code shape the model:

- `play()` does not stop the previous station. Only the click responder calls
  `stop()` first (radio.js:35). `BarePlayBreaksExclusive` shows that two
  direct `play` calls leave two stations lit and playing.
- An out-of-range index makes radio.js:54 read an undefined station, which
  fails at radio.js:58. The model states the valid index as a `requires`.

## Model

| member | source | states |
|---|---|---|
| `RadioSpec.Initial` | build/intermediates/assets/debug/www/radio/radio.js:22-27 | a new controller has index 0, no station has a handle or has had one constructed, none plays and no row is lit; this state satisfies the invariant |
| `RadioSpec.AfterToggle` | build/intermediates/assets/debug/www/radio/radio.js:101-112 | row i's active flag becomes the given boolean; every other row, every handle, every playing flag and the index are unchanged |
| `RadioSpec.AfterPlay` | build/intermediates/assets/debug/www/radio/radio.js:49-76 | the target station ends up with a handle, playing, lit and at `index`; a handle is constructed (its count grows by one) only when the station had none, and an existing handle is reused (no count changes); every other station's handle, count, playing flag and display are unchanged |
| `RadioSpec.PlayDefaultsToIndex` | build/intermediates/assets/debug/www/radio/radio.js:53 | `play` without a number acts exactly as `play(index)` |
| `RadioSpec.AfterStop` | build/intermediates/assets/debug/www/radio/radio.js:81-94 | row `index` is darkened; its handle is stopped if it exists, and with no handle nothing plays differently; `index`, all handles and every other station are unchanged |
| `RadioSpec.StopIdempotent` | build/intermediates/assets/debug/www/radio/radio.js:81-94 | a second `stop()` changes nothing |
| `RadioSpec.AfterClick` | build/intermediates/assets/debug/www/radio/radio.js:31-41 | reading "handle exists and is not playing" before `stop()` and "no handle" after it gives: a station that has a handle and plays only gets `stop()`; any other station gets `stop()` and then `play(i)` |
| `RadioSpec.AfterStreamEnd` | build/intermediates/assets/debug/www/radio/radio.js:32 | a handle ceasing by itself clears only that station's playing flag; handles, display and index are unchanged |
| `RadioSpec.AtMostOneLive` | build/intermediates/assets/debug/www/radio/radio.js:31-41 | under the invariant, two lit stations are the same station, and so are two playing stations |
| `RadioSpec.StopSilences` | build/intermediates/assets/debug/www/radio/radio.js:85-93 | from a state that keeps the invariant, `stop()` leaves no station lit or playing |
| `RadioSpec.PlayFromSilent` | build/intermediates/assets/debug/www/radio/radio.js:58-75 | `play(i)` from a silent state keeps the invariant; afterwards only station i is lit or playing |
| `RadioSpec.ClickPlayingTurnsOff` | build/intermediates/assets/debug/www/radio/radio.js:32-40 | clicking the station whose handle plays stops it without restarting it; afterwards no station plays or is lit, `index` and every handle are kept, and the invariant holds |
| `RadioSpec.ClickSwitchesTo` | build/intermediates/assets/debug/www/radio/radio.js:32-39 | clicking a station with no handle or a non-playing handle leaves it loaded, playing, lit and at `index`; the previously indexed station is darkened, keeps its handle and is stopped if it had one; every other station is untouched; under the invariant all other stations end dark and silent |
| `RadioSpec.ClickPreservesInvariant` | build/intermediates/assets/debug/www/radio/radio.js:31-41 | every click keeps the invariant |
| `RadioSpec.Step` | build/intermediates/assets/debug/www/radio/radio.js:49-94 | no call (click, play, stop or a stream ending) ever destroys a handle, and a call constructs a handle for a station only when that station goes from no handle to one |
| `RadioSpec.Run` | build/intermediates/assets/debug/www/radio/radio.js:31-41 | a sequence of calls keeps one flag of each kind per station and a valid index |
| `RadioSpec.HandleCreatedAtMostOnce` | build/intermediates/assets/debug/www/radio/radio.js:58-66 | over any run, a station that has a handle keeps it, and the run constructs its handle exactly once if it ends with one and began without, and otherwise never (so an existing handle is never rebuilt) |
| `RadioSpec.HandleCreatedAtMostOnceFromStart` | build/intermediates/assets/debug/www/radio/radio.js:58-66 | from construction, at most one handle is ever constructed for each station, and exactly one precisely when it has a handle at the end |
| `RadioSpec.StepKeepsHandlesCounted` | build/intermediates/assets/debug/www/radio/radio.js:58-66 | every call keeps "a station with a handle had exactly one constructed, one without had none" |
| `RadioSpec.StepKeepsHandlesConsistent` | build/intermediates/assets/debug/www/radio/radio.js:58-69 | every call, a direct `play` included, keeps "only a station with a handle plays" |
| `RadioSpec.StepPreservesInvariant` | build/intermediates/assets/debug/www/radio/radio.js:31-41 | a click, a `stop()` or a stream ending keeps the invariant |
| `RadioSpec.RunPreservesInvariant` | build/intermediates/assets/debug/www/radio/radio.js:31-41 | any run of clicks, stops and stream endings keeps the invariant, so at most one station is ever lit and at most one plays |
| `RadioSpec.PlayThenStopDarkens` | build/intermediates/assets/debug/www/radio/radio.js:69-94 | `play(i)` then `stop()` leaves no row lit, provided no other row was lit before |
| `RadioSpec.BarePlayBreaksExclusive` | build/intermediates/assets/debug/www/radio/radio.js:49-76 | `play` stops nothing itself: from the state after `play(0)`, a second direct `play(1)` breaks the invariant |
| `RadioSpec.TwoStationScenario` | build/intermediates/assets/debug/www/radio/radio.js:31-41 | with two unloaded stations: click A lights and plays A; click B stops A (its handle kept) and plays B; click B again leaves both loaded, dark and silent |
| `RadioController.Radio.constructor` | build/intermediates/assets/debug/www/radio/radio.js:22-27 | the new object keeps the given stations and is in the state `Initial` gives |
| `RadioController.Radio.ToggleStationDisplay` | build/intermediates/assets/debug/www/radio/radio.js:101-112 | the object's new state is `AfterToggle` of the old one |
| `RadioController.Radio.Play` | build/intermediates/assets/debug/www/radio/radio.js:49-76 | the object's new state is `AfterPlay` of the old one, and "one constructed handle per loaded station" is kept |
| `RadioController.Radio.Stop` | build/intermediates/assets/debug/www/radio/radio.js:81-94 | the object's new state is `AfterStop` of the old one |
| `RadioController.Radio.Click` | build/intermediates/assets/debug/www/radio/radio.js:31-41 | the object's new state is `AfterClick` of the old one; the invariant and "one constructed handle per loaded station" are kept |
| `RadioController.Radio.StreamEnded` | build/intermediates/assets/debug/www/radio/radio.js:32 | the object's new state is `AfterStreamEnd` of the old one |

## Left out

- The DOM: caching the element references in `window` globals (radio.js:12-15) and writing each row's label with `innerHTML` (radio.js:30) are UI plumbing and have no state of the controller's.
- The constructor's loop (radio.js:29-42) renders labels and attaches a click handler to each row. `Radio.Click(i)` stands for the handler bound to row i, so the constructor has no loop.
- The three CSS effects of `toggleStationDisplay` (the background colour, the opacity of the "live" marker and the display of the animation, radio.js:105-111) are one `active` flag.
- Howler.js itself is not part of this model: the `Howl` options (`src`, `html5`, `format`, radio.js:61-65), decoding and streaming. Station URLs are carried in `StationInfo.src` but never used.
- The five configured stations (radio.js:116-147) are configuration data. The model works for any number of stations. The constructor starts every station without a handle, as the configuration supplies `howl: null` for each.
- A stream that stops or fails by itself is the nondeterministic `StreamEnded` event. The model does not say when this happens.
- The click responder calls the global `radio` rather than `self` (radio.js:35, radio.js:39). The page creates one `Radio`, so the model calls the object's own methods.
- `play` decides between a given station and the current one with `typeof index === 'number'`. In the model that choice is `Option<int>`. A non-integer number or an out-of-range index makes the source index an undefined station; the model excludes these with a precondition.
- With an empty station list, `index` is 0 but names no station. No row then exists to click, so `stop()` and `play()` are never reached; the model requires a station for both.
- Handle identity: a handle is the `loaded` and `playing` flags plus the ghost count `created` of constructions; the model does not give `Howl` objects identities, so it says "constructed once and then reused" through that count rather than through object identity.
