/**
 The playback state machine of the dynamic-island music widget, on values.

 The widget holds five pieces of view state (whether the island is expanded,
 whether playback is intended, the simulated progress in percent, whether the
 hidden embedded player has been mounted, and whether the clip has ended).
 Every user event runs a handler against the state of the last render, the
 handler's updates are committed together, and then the relay effect posts a
 play or pause command to the embedded player if the committed state changed.
 This module gives each of those pieces as a function, and `Step` composes
 them into one transition of the whole widget.
 */
module IslandState {

  /** Length of the clip in seconds; the interval fires once per second. */
  const SongDuration: nat := 106

  /** Percentage points that one interval tick adds to the progress. */
  const TickIncrement: real := 100.0 / (SongDuration as real)

  /** The commands the widget posts to the embedded player. */
  datatype Command = SeekToStart | PlayVideo | PauseVideo

  /** The five state fields of the component. */
  datatype State = State(
    isExpanded: bool,
    isPlaying: bool,
    progress: real,
    iframeMounted: bool,
    hasEnded: bool)

  /** A state together with the commands posted while reaching it. */
  datatype Outcome = Outcome(next: State, sent: seq<Command>)

  /** What can happen to the widget: a click on one of its controls, or one second of time. */
  datatype Event =
    | IslandClicked     // the island itself
    | CloseClicked      // the close button of the expanded panel
    | PlayPauseClicked  // the play/pause button
    | SkipClicked       // either skip button; both run the restart handler
    | SecondElapsed     // one second of wall-clock time

  /** The state of the first render. */
  function Initial(): State {
    State(false, false, 0.0, false, false)
  }

  /** The invariant of the playback fields. */
  ghost predicate Inv(s: State) {
    && 0.0 <= s.progress <= 100.0
    && (s.hasEnded <==> s.progress == 100.0)
    && (s.hasEnded ==> !s.isPlaying)
  }

  /** The command the relay posts for a given intended playback state. */
  function PlayCommand(playing: bool): Command {
    if playing then PlayVideo else PauseVideo
  }

  /**
   The embedded player has received commands only since it was mounted, and
   the last one it received matches the intended playback state.
   */
  ghost predicate Synced(s: State, log: seq<Command>) {
    if s.iframeMounted then log != [] && log[|log| - 1] == PlayCommand(s.isPlaying)
    else log == []
  }

  /** `a` and `b` agree on everything but whether the island is expanded. */
  ghost predicate SamePlayback(a: State, b: State) {
    && a.isPlaying == b.isPlaying
    && a.progress == b.progress
    && a.iframeMounted == b.iframeMounted
    && a.hasEnded == b.hasEnded
  }

  /** Every seek command in `cmds` is immediately followed by a play command. */
  ghost predicate SeekThenPlay(cmds: seq<Command>) {
    forall i :: 0 <= i < |cmds| && cmds[i] == SeekToStart ==> i + 1 < |cmds| && cmds[i + 1] == PlayVideo
  }

  /** The island's click handler: expands a collapsed island and otherwise does nothing. */
  function Expand(s: State): (o: Outcome)
    ensures o.next.isExpanded && SamePlayback(s, o.next) && o.sent == []
    ensures s.isExpanded ==> o.next == s
  {
    if !s.isExpanded then Outcome(s.(isExpanded := true), []) else Outcome(s, [])
  }

  /** The close button's handler: collapses the island, whatever is playing. */
  function Collapse(s: State): (o: Outcome)
    ensures !o.next.isExpanded && SamePlayback(s, o.next) && o.sent == []
  {
    Outcome(s.(isExpanded := false), [])
  }

  /**
   The restart handler applied to the pending state `s`. It posts its seek
   and play pair only when the player was mounted in the render the click
   came from (`mountedAtRender`), and it never mounts the player itself.
   */
  function Restart(s: State, mountedAtRender: bool): (o: Outcome)
    ensures o.next.progress == 0.0 && !o.next.hasEnded && o.next.isPlaying
    ensures o.next.isExpanded == s.isExpanded && o.next.iframeMounted == s.iframeMounted
    ensures o.sent == if mountedAtRender then [SeekToStart, PlayVideo] else []
  {
    var cmds := if mountedAtRender then [SeekToStart, PlayVideo] else [];
    Outcome(s.(progress := 0.0, hasEnded := false, isPlaying := true), cmds)
  }

  /**
   The play/pause handler. It mounts the player; once the clip has ended it
   restarts, reading the mounted flag of the render before the click; otherwise
   it flips the intended playback state.
   */
  function PlayPause(s: State): (o: Outcome)
    ensures o.next.iframeMounted
    ensures s.hasEnded ==>
      var skip := Restart(s, s.iframeMounted);
      o.next == skip.next.(iframeMounted := true) && o.sent == skip.sent
    ensures !s.hasEnded ==> o.next == s.(isPlaying := !s.isPlaying, iframeMounted := true) && o.sent == []
  {
    var pending := s.(iframeMounted := true);
    if s.hasEnded then Restart(pending, s.iframeMounted)
    else Outcome(pending.(isPlaying := !s.isPlaying), [])
  }

  /** Whether the progress interval exists: it is set up only while this holds. */
  predicate TickEnabled(s: State) {
    s.isPlaying && !s.hasEnded
  }

  /**
   One second of wall-clock time. If the interval exists, its callback adds
   one increment to the progress, clamping to 100 and ending playback when
   the sum reaches 100; otherwise nothing happens.
   */
  function Tick(s: State): (o: Outcome)
    ensures o.sent == []
    ensures !TickEnabled(s) ==> o.next == s
    ensures o.next.isExpanded == s.isExpanded && o.next.iframeMounted == s.iframeMounted
    ensures Inv(s) ==> Inv(o.next) && s.progress <= o.next.progress
    ensures TickEnabled(s) && s.progress + TickIncrement >= 100.0 ==>
      o.next.progress == 100.0 && !o.next.isPlaying && o.next.hasEnded
    ensures TickEnabled(s) && s.progress + TickIncrement < 100.0 ==>
      o.next == s.(progress := s.progress + TickIncrement)
  {
    if TickEnabled(s) then
      var newProgress := s.progress + TickIncrement;
      if newProgress >= 100.0 then
        Outcome(s.(isPlaying := false, hasEnded := true, progress := 100.0), [])
      else
        Outcome(s.(progress := newProgress), [])
    else
      Outcome(s, [])
  }

  /**
   The relay effect, run after a commit from `before` to `after`: if the
   intended playback state or the mounted flag changed and the player is
   mounted, post the command for the new playback state.
   */
  function Relay(before: State, after: State): seq<Command> {
    if (before.isPlaying != after.isPlaying || before.iframeMounted != after.iframeMounted)
       && after.iframeMounted
    then [PlayCommand(after.isPlaying)]
    else []
  }

  /** The handler an event runs. */
  function Handle(s: State, e: Event): Outcome {
    match e
    case IslandClicked => Expand(s)
    case CloseClicked => Collapse(s)
    case PlayPauseClicked => PlayPause(s)
    case SkipClicked => Restart(s, s.iframeMounted)
    case SecondElapsed => Tick(s)
  }

  /**
   Whether the event can happen in state `s`: the close, play/pause and skip
   buttons exist only in the expanded panel; the island can always be
   clicked, and time always passes.
   */
  predicate Enabled(s: State, e: Event) {
    match e
    case CloseClicked | PlayPauseClicked | SkipClicked => s.isExpanded
    case IslandClicked | SecondElapsed => true
  }

  /** One transition of the widget: the handler, its commit, then the relay effect. */
  function Step(s: State, e: Event): (o: Outcome)
    requires Enabled(s, e)
    ensures Inv(s) ==> Inv(o.next)
    ensures s.iframeMounted ==> o.next.iframeMounted
    ensures !s.iframeMounted && o.next.iframeMounted ==> e == PlayPauseClicked
    ensures !o.next.iframeMounted ==> o.sent == []
  {
    var h := Handle(s, e);
    Outcome(h.next, h.sent + Relay(s, h.next))
  }

  /** Every event of `events` is enabled in the state the events before it lead to. */
  ghost predicate Feasible(s: State, events: seq<Event>)
    decreases |events|
  {
    events == [] || (Enabled(s, events[0]) && Feasible(Step(s, events[0]).next, events[1..]))
  }

  /** The widget after a sequence of events, with every command it posted. */
  function Run(s: State, events: seq<Event>): Outcome
    requires Feasible(s, events)
    decreases |events|
  {
    if events == [] then Outcome(s, [])
    else
      var first := Step(s, events[0]);
      var rest := Run(first.next, events[1..]);
      Outcome(rest.next, first.sent + rest.sent)
  }

  /** The widget after `n` seconds with no clicks. */
  function Ticks(s: State, n: nat): State
    decreases n
  {
    if n == 0 then s else Ticks(Step(s, SecondElapsed).next, n - 1)
  }

  /** The least integer not below `x`. */
  function Ceil(x: real): (r: int)
    ensures x <= r as real < x + 1.0
  {
    if x.Floor as real == x then x.Floor else x.Floor + 1
  }

  /**
   A transition posts at most three commands (the restart's seek and play and
   the relay's command), and every seek is immediately followed by a play.
   */
  lemma StepPostsSeekThenPlay(s: State, e: Event)
    requires Enabled(s, e)
    ensures SeekThenPlay(Step(s, e).sent) && |Step(s, e).sent| <= 3
  {
    var h := Handle(s, e);
    var r := Relay(s, h.next);
    assert h.sent == [] || h.sent == [SeekToStart, PlayVideo];
    assert r == [] || r == [PlayVideo] || r == [PauseVideo];
  }

  /** Every step keeps the invariant and keeps the player's last command in line with the widget. */
  lemma StepKeepsSynced(s: State, log: seq<Command>, e: Event)
    requires Inv(s) && Synced(s, log) && Enabled(s, e)
    ensures Synced(Step(s, e).next, log + Step(s, e).sent)
  {
    var o := Step(s, e);
    var h := Handle(s, e);
    if o.next.iframeMounted {
      var r := Relay(s, h.next);
      if r == [] {
        // Nothing changed that the relay watches; the handler posted nothing but a restart pair.
        assert s.iframeMounted;
        if h.sent != [] {
          assert h.sent == [SeekToStart, PlayVideo] && o.next.isPlaying;
        } else {
          assert (log + o.sent) == log;
        }
      } else {
        assert (log + o.sent)[|log + o.sent| - 1] == r[0];
      }
    }
  }

  /**
   The relay also watches the mounted flag, but that never makes a
   difference: the flag changes only on play/pause, which always changes
   `isPlaying` too. So a command is relayed exactly when `isPlaying` changed
   and the player is mounted.
   */
  lemma RelayOnlyOnPlayingChange(s: State, e: Event)
    requires Inv(s) && Enabled(s, e)
    ensures var after := Handle(s, e).next;
      Relay(s, after) ==
        if after.isPlaying != s.isPlaying && after.iframeMounted then [PlayCommand(after.isPlaying)] else []
  {
  }
}
