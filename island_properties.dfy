/**
 Properties of the widget's state machine over whole runs: what every
 reachable state satisfies, how the simulated progress runs out, and what the
 play/pause button posts when the clip ended before the player was mounted.
 */
module IslandProperties {
  import opened IslandState

  /** A run keeps the invariant and keeps the embedded player told the intended playback state. */
  lemma {:induction false} RunKeepsSynced(s: State, log: seq<Command>, events: seq<Event>)
    requires Inv(s) && Synced(s, log) && Feasible(s, events)
    ensures Inv(Run(s, events).next) && Synced(Run(s, events).next, log + Run(s, events).sent)
    decreases |events|
  {
    if events != [] {
      var first := Step(s, events[0]);
      var rest := Run(first.next, events[1..]);
      StepKeepsSynced(s, log, events[0]);
      RunKeepsSynced(first.next, log + first.sent, events[1..]);
      assert Synced(rest.next, (log + first.sent) + rest.sent);
      assert (log + first.sent) + rest.sent == log + Run(s, events).sent;
    }
  }

  /**
   Every state reachable from the first render has its progress in [0, 100],
   has ended exactly when the progress is 100, is not playing once ended, and
   has posted commands only since the player was mounted, the last of them
   matching the intended playback state.
   */
  lemma ReachableStatesAreConsistent(events: seq<Event>)
    requires Feasible(Initial(), events)
    ensures var o := Run(Initial(), events); Inv(o.next) && Synced(o.next, o.sent)
  {
    RunKeepsSynced(Initial(), [], events);
  }

  /** The player is mounted only by a click on play/pause, and once mounted it stays mounted. */
  lemma {:induction false} MountedOnlyByPlayPause(s: State, events: seq<Event>)
    requires Feasible(s, events)
    ensures s.iframeMounted ==> Run(s, events).next.iframeMounted
    ensures !s.iframeMounted && Run(s, events).next.iframeMounted ==> PlayPauseClicked in events
    decreases |events|
  {
    if events != [] {
      var first := Step(s, events[0]);
      MountedOnlyByPlayPause(first.next, events[1..]);
      if !first.next.iframeMounted && Run(first.next, events[1..]).next.iframeMounted {
        assert PlayPauseClicked in events[1..];
      }
    }
  }

  /** Under any number of seconds the progress never decreases and the invariant holds. */
  lemma {:induction false} TicksNeverDecrease(s: State, m: nat, n: nat)
    requires Inv(s) && m <= n
    ensures Inv(Ticks(s, n)) && Ticks(s, m).progress <= Ticks(s, n).progress
    decreases n
  {
    if n > 0 {
      TicksNeverDecrease(s, if m < n then m else n - 1, n - 1);
      TicksSplit(s, n - 1);
    }
  }

  /** One more second after `n` seconds is one more step. */
  lemma {:induction false} TicksSplit(s: State, n: nat)
    ensures Ticks(s, n + 1) == Step(Ticks(s, n), SecondElapsed).next
    decreases n
  {
    if n > 0 {
      TicksSplit(Step(s, SecondElapsed).next, n - 1);
    }
  }

  /** The number of seconds a playing clip at `p` percent has left, as a whole number. */
  function SecondsLeft(p: real): int {
    Ceil((100.0 - p) / TickIncrement)
  }

  /** Taking one off a real number takes one off its ceiling. */
  lemma CeilStepsDown(x: real)
    ensures Ceil(x - 1.0) == Ceil(x) - 1
  {
    var a, b := Ceil(x - 1.0), Ceil(x);
    assert x - 1.0 <= a as real < x;
    assert x <= b as real < x + 1.0;
  }

  /** Progress one increment short of the end has one second fewer left, and at least one. */
  lemma SecondsLeftStepsDown(p: real)
    requires p + TickIncrement < 100.0
    ensures SecondsLeft(p + TickIncrement) == SecondsLeft(p) - 1 >= 1
  {
    var x := (100.0 - p) / TickIncrement;
    assert (100.0 - (p + TickIncrement)) / TickIncrement == x - 1.0;
    CeilStepsDown(x);
  }

  /** Progress within one increment of the end has exactly one second left. */
  lemma SecondsLeftLast(p: real)
    requires p < 100.0 <= p + TickIncrement
    ensures SecondsLeft(p) == 1
  {
    var x := (100.0 - p) / TickIncrement;
    assert 0.0 < x <= 1.0;
  }

  /**
   A tick that does not end the clip adds one increment and takes exactly one
   second off the time left; one that does ends it with one second left.
   */
  lemma OneSecondCloser(s: State)
    requires Inv(s) && TickEnabled(s)
    ensures var next := Step(s, SecondElapsed).next;
      if s.progress + TickIncrement < 100.0
      then TickEnabled(next) && Inv(next) && next.progress == s.progress + TickIncrement
        && SecondsLeft(next.progress) == SecondsLeft(s.progress) - 1 >= 1
      else next.hasEnded && SecondsLeft(s.progress) == 1
  {
    var t := Tick(s);
    assert Step(s, SecondElapsed).next == t.next;
    if s.progress + TickIncrement < 100.0 {
      SecondsLeftStepsDown(s.progress);
    } else {
      SecondsLeftLast(s.progress);
    }
  }

  /**
   Playing from progress `p` below 100, the clip ends after exactly
   `SecondsLeft(p)` seconds, no earlier: progress is then 100, playback has
   stopped, and no further second changes anything, because the interval is
   gone.
   */
  lemma {:induction false} PlaybackEndsOnTime(s: State)
    requires Inv(s) && TickEnabled(s)
    ensures SecondsLeft(s.progress) >= 1
    ensures var e := Ticks(s, SecondsLeft(s.progress));
      e.progress == 100.0 && !e.isPlaying && e.hasEnded && Step(e, SecondElapsed).next == e
    ensures forall m :: 0 <= m < SecondsLeft(s.progress) ==>
      !Ticks(s, m).hasEnded && Ticks(s, m).progress == s.progress + m as real * TickIncrement
    decreases SecondsLeft(s.progress)
  {
    var p := s.progress;
    var n := SecondsLeft(p);
    var next := Step(s, SecondElapsed).next;
    OneSecondCloser(s);
    assert Ticks(s, 0) == s;
    if p + TickIncrement >= 100.0 {
      assert Ticks(s, 1) == Ticks(next, 0) == next;
    } else {
      PlaybackEndsOnTime(next);
      forall m | 1 <= m < n
        ensures !Ticks(s, m).hasEnded && Ticks(s, m).progress == p + m as real * TickIncrement
      {
        assert Ticks(s, m) == Ticks(next, m - 1);
        assert (m - 1) as real * TickIncrement + TickIncrement == m as real * TickIncrement;
      }
      assert Ticks(s, n) == Ticks(next, n - 1);
    }
  }

  /**
   The play/pause button on an ended clip restarts with the render's stale
   mounted flag: if the player was already mounted it posts the restart's seek
   and play and then the relay's play; if it was not, it mounts the player but
   posts only the relay's play, with no seek.
   */
  lemma PlayPauseAfterEndPosts(s: State)
    requires Inv(s) && s.hasEnded && s.isExpanded
    ensures var o := Step(s, PlayPauseClicked);
      && o.next.iframeMounted && o.next.isPlaying && o.next.progress == 0.0 && !o.next.hasEnded
      && o.sent == if s.iframeMounted then [SeekToStart, PlayVideo, PlayVideo] else [PlayVideo]
  {
  }

  /**
   The skip button plays without mounting the player, so a clip can run to
   its end with no player behind it; play/pause then restarts it without a
   seek.
   */
  lemma SkipRunsOutWithoutPlayer(s: State)
    requires Inv(s) && !s.iframeMounted && s.isExpanded
    ensures var started := Step(s, SkipClicked);
      var ended := Ticks(started.next, SongDuration);
      && started.next.isPlaying && !started.next.iframeMounted && started.sent == []
      && ended.hasEnded && !ended.iframeMounted && ended.isExpanded
      && Step(ended, PlayPauseClicked).sent == [PlayVideo]
  {
    var started := Step(s, SkipClicked).next;
    assert started.progress == 0.0;
    assert SecondsLeft(started.progress) == SongDuration;
    PlaybackEndsOnTime(started);
    var ended := Ticks(started, SongDuration);
    TicksKeepMounted(started, SongDuration);
    TicksKeepExpanded(started, SongDuration);
    PlayPauseAfterEndPosts(ended);
  }

  /** Seconds never expand or collapse the island. */
  lemma {:induction false} TicksKeepExpanded(s: State, n: nat)
    ensures Ticks(s, n).isExpanded == s.isExpanded
    decreases n
  {
    if n > 0 {
      TicksKeepExpanded(Step(s, SecondElapsed).next, n - 1);
    }
  }

  /** Seconds never mount or unmount the player. */
  lemma {:induction false} TicksKeepMounted(s: State, n: nat)
    ensures Ticks(s, n).iframeMounted == s.iframeMounted
    decreases n
  {
    if n > 0 {
      TicksKeepMounted(Step(s, SecondElapsed).next, n - 1);
    }
  }

  /**
   From the first render, expanding and pressing play mounts and starts the
   player, and one second later the progress is one increment.
   */
  lemma ExpandPlayTick()
    ensures Feasible(Initial(), [IslandClicked, PlayPauseClicked, SecondElapsed])
    ensures var o := Run(Initial(), [IslandClicked, PlayPauseClicked, SecondElapsed]);
      && o.next == State(true, true, 100.0 / 106.0, true, false)
      && o.sent == [PlayVideo]
  {
    var a := Step(Initial(), IslandClicked);
    var b := Step(a.next, PlayPauseClicked);
    var c := Step(b.next, SecondElapsed);
    assert Run(c.next, []) == Outcome(c.next, []);
    assert [IslandClicked, PlayPauseClicked, SecondElapsed][1..] == [PlayPauseClicked, SecondElapsed];
    assert [PlayPauseClicked, SecondElapsed][1..] == [SecondElapsed];
    assert [SecondElapsed][1..] == [];
  }
}
