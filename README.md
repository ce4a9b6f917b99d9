# Dynamic-island music player: playback state machine

This project models the behaviour of `DynamicIslandPlayer`, a floating
"island" widget. It expands from an icon into a small music-player panel,
simulates playback progress of one fixed 106-second clip with a
once-per-second interval, and posts `seekTo`, `playVideo` and `pauseVideo`
commands into a hidden embedded player frame.

The component's behaviour is a state machine over five fields:

- `isExpanded`
- `isPlaying`
- `progress` (percent)
- `iframeMounted`
- `hasEnded`

Five things act on it: a click on the island (expand), the close button
(collapse), the play/pause button, either skip button (restart), and one
second of time (the interval callback). The close, play/pause and skip
buttons exist only in the expanded panel, so those three clicks can happen
only while the island is expanded. After every commit, a relay effect
posts a play or pause command when `isPlaying` or `iframeMounted` changed and
the player is mounted.

The model has three modules:

- `IslandState` (island_state.dfy) gives the state as a value. It has one
  function per handler (`Expand`, `Collapse`, `PlayPause`, `Restart`,
  `Tick`) and the relay effect (`Relay`). `Enabled` says which events can
  happen in a state. `Step` composes a handler, its commit and the relay into
  one transition of an enabled event. `Run` folds `Step` over a sequence of
  events each of which is enabled when it happens (`Feasible`). Outbound messages are an append-only log of `Command`s.
- `IslandProperties` (island_properties.dfy) proves properties of whole runs.
  Every reachable state keeps `progress` in [0, 100], has `hasEnded` exactly
  when `progress == 100`, and is never playing once ended. Commands are
  posted to the player only once it is mounted, and the last command posted
  always matches `isPlaying`. Nothing but play/pause mounts the player, and it is never
  unmounted. A playing clip at `p` percent ends after exactly
  ⌈(100 − p) / (100/106)⌉ seconds, and not before. The module also proves the
  two restart behaviours described below.
- `IslandWidget` (island_widget.dfy) models the component as a class. It has
  the five mutable fields and a `posted` log, and one method per handler.
  Each method's body follows the source's statements. Each method is proved
  to leave the fields and the log exactly as `Step` says, and to keep the
  invariant `Valid()`.

Every handler reads the state of the render it was created in: each function
takes that state as its argument, and each widget method first takes a
snapshot of it (`rendered`). Two consequences for restarts are proved:

- **Restart reads a stale `iframeMounted`.** When play/pause is pressed on an
  ended clip, `handleRestart` runs inside the same click. It reads
  `iframeMounted` from before the click, even though the click has just set
  it. If the player was not mounted, the restart posts no seek/play pair, and
  the only command is the relay's `playVideo`. Lemma
  `IslandProperties.PlayPauseAfterEndPosts` states both cases.
- **Restart does not mount the player.** The skip buttons start simulated
  playback without a player. The clip can run to its end that way, and the
  next play/pause then restarts it without a seek
  (`IslandProperties.SkipRunsOutWithoutPlayer`).

Play/pause on an ended clip posts the seek-then-play pair only when the
player was mounted before the click (`PlayPauseAfterEndPosts`). The relay
depends on `iframeMounted` as well as `isPlaying`, but the extra dependency
has no observable effect: `iframeMounted` changes only on play/pause, which
always changes `isPlaying` too, so a command is relayed exactly when
`isPlaying` changed and the player is mounted (`RelayOnlyOnPlayingChange`).

## Model

| member | source | states |
|---|---|---|
| IslandState.Expand | components/dynamic-island-player.tsx:76 | a click on the island leaves it expanded, changes no playback field and posts nothing; on an already expanded island it changes nothing |
| IslandState.Collapse | components/dynamic-island-player.tsx:100-103 | the close button leaves the island collapsed and changes no playback field, so collapsing does not stop playback |
| IslandState.Restart | components/dynamic-island-player.tsx:47-61 | from any state: progress 0, not ended, playing; `iframeMounted` and `isExpanded` unchanged; the seek command then the play command are posted exactly when the player was mounted in the render the click came from |
| IslandState.PlayPause | components/dynamic-island-player.tsx:36-45 | always leaves the player mounted; on an ended clip it is the skip buttons' restart (posting what that restart posts, with the pre-click mounted flag) plus mounting; otherwise it flips `isPlaying` and changes nothing else but mounting |
| IslandState.Tick | components/dynamic-island-player.tsx:18-34 | with no interval (not playing, or ended) a second changes nothing; otherwise progress grows by 100/106, or is clamped to exactly 100 with playback stopped and ended in the same update; the invariant is kept and progress never decreases |
| IslandState.Step | components/dynamic-island-player.tsx:63-68 | a whole transition of an enabled event (handler, commit, relay) keeps the invariant, never unmounts the player, mounts it only on play/pause, and posts nothing to an unmounted player |
| IslandState.StepPostsSeekThenPlay | components/dynamic-island-player.tsx:50-59 | a transition posts at most three commands (seek, play and the relay's command), and every seek is immediately followed by a play |
| IslandState.RelayOnlyOnPlayingChange | components/dynamic-island-player.tsx:63-68 | in any state satisfying the invariant and for any enabled event, the relay posts a command exactly when `isPlaying` changed and the player is mounted, so its dependency on `iframeMounted` changes nothing |
| IslandState.StepKeepsSynced | components/dynamic-island-player.tsx:63-68 | after any transition the last command posted to a mounted player matches `isPlaying`, and an unmounted player has received nothing |
| IslandProperties.RunKeepsSynced | components/dynamic-island-player.tsx:18-68 | any sequence of events, each enabled when it happens, keeps the invariant and the player's last command in line with `isPlaying` |
| IslandProperties.ReachableStatesAreConsistent | components/dynamic-island-player.tsx:6-10 | from the first render, every state reachable by events that are enabled when they happen has progress in [0, 100], `hasEnded` exactly when progress is 100, is not playing once ended, and has posted commands only since mounting, the last one matching `isPlaying` |
| IslandProperties.MountedOnlyByPlayPause | components/dynamic-island-player.tsx:37-39 | once mounted the player stays mounted over any feasible run, and an unmounted player becomes mounted only if play/pause was pressed |
| IslandProperties.TicksNeverDecrease | components/dynamic-island-player.tsx:22-29 | over any number of seconds with no clicks the invariant holds and progress never decreases |
| IslandProperties.TicksKeepMounted | components/dynamic-island-player.tsx:18-34 | seconds never change whether the player is mounted |
| IslandProperties.PlaybackEndsOnTime | components/dynamic-island-player.tsx:20-31 | playing from progress p, the clip ends after exactly ⌈(100 − p)/(100/106)⌉ seconds: progress is 100, playback stopped, ended, and further seconds change nothing; before that, it is not ended and progress is p plus one increment per second |
| IslandProperties.PlayPauseAfterEndPosts | components/dynamic-island-player.tsx:36-61 | play/pause on an ended clip in the expanded panel mounts, restarts and plays; it posts seek, play and the relay's play when the player was mounted before the click, and only the relay's play when it was not |
| IslandProperties.SkipRunsOutWithoutPlayer | components/dynamic-island-player.tsx:47-61 | a skip from the expanded panel of an unmounted state starts playback with no player and posts nothing, the clip ends 106 seconds later still unmounted and expanded, and play/pause then posts only a play with no seek |
| IslandProperties.ExpandPlayTick | components/dynamic-island-player.tsx:18-45 | from the first render, expand then play then one second: expanded, mounted, playing, progress 100/106, and exactly one play command posted |
| IslandWidget.DynamicIslandPlayer.constructor | components/dynamic-island-player.tsx:6-10 | the fields start collapsed, paused, at progress 0, unmounted and not ended, with nothing posted |
| IslandWidget.DynamicIslandPlayer.ClickIsland | components/dynamic-island-player.tsx:76 | the fields and the log become what `Step` gives for a click on the island, and `Valid()` is kept |
| IslandWidget.DynamicIslandPlayer.ClickClose | components/dynamic-island-player.tsx:100-103 | on an expanded island, the fields and the log become what `Step` gives for the close button, and `Valid()` is kept |
| IslandWidget.DynamicIslandPlayer.HandlePlayPause | components/dynamic-island-player.tsx:36-45 | on an expanded island, the fields and the log become what `Step` gives for play/pause, the restart reading the pre-click mounted flag, and `Valid()` is kept |
| IslandWidget.DynamicIslandPlayer.HandleRestart | components/dynamic-island-player.tsx:120-124 | on an expanded island, a click on either skip button (the second one at lines 150-154) leaves the fields and the log as `Step` gives for a restart, and `Valid()` is kept |
| IslandWidget.DynamicIslandPlayer.ElapseSecond | components/dynamic-island-player.tsx:18-34 | one second leaves the fields and the log as `Step` gives, including the relay's pause when the clip ends on a mounted player, and `Valid()` is kept |
| IslandWidget.DynamicIslandPlayer.RunRestart | components/dynamic-island-player.tsx:47-61 | the restart handler's updates and posts, given the mounted flag its closure sees, are those of `IslandState.Restart` |
| IslandWidget.DynamicIslandPlayer.RunRelay | components/dynamic-island-player.tsx:63-68 | the relay effect appends to the log exactly what `IslandState.Relay` gives for the render before and the state after the commit |
| IslandWidget.ExpandPlayPause | components/dynamic-island-player.tsx:36-45 | a client that expands, plays, waits one second and pauses ends expanded, mounted, paused at progress 100/106, having posted play then pause |

## Left out

- Rendering, CSS classes, icons and the progress bar's width binding (lines 70-177 apart from the handlers): presentation only.
- The iframe element, its URL, `youtubeId` and `window.location.origin`: host and DOM plumbing. The iframe is rendered exactly when `iframeMounted` holds, so the source's guard `iframeRef.current && iframeMounted` is modelled as `iframeMounted`.
- `postMessage` delivery, JSON encoding, the `args` lists and the `"*"` target origin: outbound messages are modelled as appends of an abstract `Command` to a log.
- `setInterval`/`clearInterval` timing and cleanup: time is modelled as a `SecondElapsed` event, and the interval callback runs only when the interval exists (`isPlaying && !hasEnded`).
- React scheduling: batching is modelled as one atomic commit per event, with the relay run after it. Effect ordering between renders and the StrictMode double call of the progress updater are not modelled. The updater calls two other setters; the model makes all three updates in one commit.
- Floating point: progress is an exact `real` and each tick adds exactly 100/106, so from 0 the clip ends on the 106th tick. With IEEE doubles, 106 additions give 99.99999999999984, so the source takes 107 ticks.
- The display constants `songTitle` and `artist`: display only.
- Unmounting the component, and the interval cleanup that happens then.
