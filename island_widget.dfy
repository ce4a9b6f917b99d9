/**
 The widget as an object: the five state fields are overwritten in place by
 the handlers, and the messages posted to the embedded player are appended to
 a log. Each handler first takes the snapshot of the last render (what its
 closure sees), runs the handler's updates against the fields, then runs the
 relay effect against that snapshot; its contract ties the new fields and the
 new log to `IslandState.Step`.
 */
module IslandWidget {
  import opened IslandState

  class DynamicIslandPlayer {
    var isExpanded: bool
    var isPlaying: bool
    var progress: real
    var iframeMounted: bool
    var hasEnded: bool
    /** Every command posted to the embedded player, oldest first. */
    var posted: seq<Command>

    /** The five state fields as a value. */
    function Snapshot(): State
      reads this
    {
      State(isExpanded, isPlaying, progress, iframeMounted, hasEnded)
    }

    ghost predicate Valid()
      reads this
    {
      Inv(Snapshot()) && Synced(Snapshot(), posted)
    }

    constructor ()
      ensures Valid() && Snapshot() == Initial() && posted == []
    {
      isExpanded, isPlaying, progress, iframeMounted, hasEnded := false, false, 0.0, false, false;
      posted := [];
    }

    /** A click on the island: expands it if it is collapsed. */
    method ClickIsland()
      requires Valid()
      modifies this
      ensures Valid()
      ensures Snapshot() == Step(old(Snapshot()), IslandClicked).next
      ensures posted == old(posted) + Step(old(Snapshot()), IslandClicked).sent
    {
      var rendered := Snapshot();
      if !rendered.isExpanded {
        isExpanded := true;
      }
      RunRelay(rendered);
      StepKeepsSynced(rendered, old(posted), IslandClicked);
    }

    /** A click on the close button: collapses the island. */
    method ClickClose()
      requires Valid() && isExpanded
      modifies this
      ensures Valid()
      ensures Snapshot() == Step(old(Snapshot()), CloseClicked).next
      ensures posted == old(posted) + Step(old(Snapshot()), CloseClicked).sent
    {
      var rendered := Snapshot();
      isExpanded := false;
      RunRelay(rendered);
      StepKeepsSynced(rendered, old(posted), CloseClicked);
    }

    /** A click on play/pause. */
    method HandlePlayPause()
      requires Valid() && isExpanded
      modifies this
      ensures Valid()
      ensures Snapshot() == Step(old(Snapshot()), PlayPauseClicked).next
      ensures posted == old(posted) + Step(old(Snapshot()), PlayPauseClicked).sent
    {
      var rendered := Snapshot();
      if !rendered.iframeMounted {
        iframeMounted := true;
      }
      if rendered.hasEnded {
        // The restart reads the mounted flag of the render, not the one just set.
        RunRestart(rendered.iframeMounted);
      } else {
        isPlaying := !rendered.isPlaying;
      }
      RunRelay(rendered);
      StepKeepsSynced(rendered, old(posted), PlayPauseClicked);
    }

    /** A click on either skip button. */
    method HandleRestart()
      requires Valid() && isExpanded
      modifies this
      ensures Valid()
      ensures Snapshot() == Step(old(Snapshot()), SkipClicked).next
      ensures posted == old(posted) + Step(old(Snapshot()), SkipClicked).sent
    {
      var rendered := Snapshot();
      RunRestart(rendered.iframeMounted);
      RunRelay(rendered);
      StepKeepsSynced(rendered, old(posted), SkipClicked);
    }

    /** One second of wall-clock time: the interval callback runs if the interval exists. */
    method ElapseSecond()
      requires Valid()
      modifies this
      ensures Valid()
      ensures Snapshot() == Step(old(Snapshot()), SecondElapsed).next
      ensures posted == old(posted) + Step(old(Snapshot()), SecondElapsed).sent
    {
      var rendered := Snapshot();
      if rendered.isPlaying && !rendered.hasEnded {
        var newProgress := progress + TickIncrement;
        if newProgress >= 100.0 {
          isPlaying := false;
          hasEnded := true;
          progress := 100.0;
        } else {
          progress := newProgress;
        }
      }
      RunRelay(rendered);
      StepKeepsSynced(rendered, old(posted), SecondElapsed);
    }

    /** The body of the restart handler, given the mounted flag its closure sees. */
    method RunRestart(mountedAtRender: bool)
      modifies this
      ensures Snapshot() == Restart(old(Snapshot()), mountedAtRender).next
      ensures posted == old(posted) + Restart(old(Snapshot()), mountedAtRender).sent
    {
      progress := 0.0;
      hasEnded := false;
      if mountedAtRender {
        posted := posted + [SeekToStart];
        posted := posted + [PlayVideo];
      }
      isPlaying := true;
    }

    /** The relay effect after the commit that followed the render `rendered`. */
    method RunRelay(rendered: State)
      modifies this`posted
      ensures posted == old(posted) + Relay(rendered, Snapshot())
    {
      if (isPlaying != rendered.isPlaying || iframeMounted != rendered.iframeMounted) && iframeMounted {
        posted := posted + [PlayCommand(isPlaying)];
      }
    }
  }

  /**
   A client: from the first render, expand, press play, let one second pass,
   then press play again to pause.
   */
  method ExpandPlayPause() returns (w: DynamicIslandPlayer)
    ensures w.Valid() && w.isExpanded && w.iframeMounted && !w.isPlaying
    ensures w.progress == TickIncrement && w.posted == [PlayVideo, PauseVideo]
  {
    var s1, s2, s3 := ClientStates();
    w := new DynamicIslandPlayer();
    w.ClickIsland();
    w.HandlePlayPause();
    assert w.Snapshot() == s2 && w.posted == [PlayVideo];
    w.ElapseSecond();
    assert w.Snapshot() == s3 && w.posted == [PlayVideo];
    w.HandlePlayPause();
  }

  /** The states the client above passes through, and what each click posts. */
  lemma ClientStates() returns (s1: State, s2: State, s3: State)
    ensures Step(Initial(), IslandClicked) == Outcome(s1, [])
    ensures Step(s1, PlayPauseClicked) == Outcome(s2, [PlayVideo])
    ensures Step(s2, SecondElapsed) == Outcome(s3, [])
    ensures Step(s3, PlayPauseClicked) == Outcome(s3.(isPlaying := false), [PauseVideo])
    ensures s2.isExpanded && s3 == s2.(progress := TickIncrement)
  {
    s1 := State(true, false, 0.0, false, false);
    s2 := State(true, true, 0.0, true, false);
    s3 := State(true, true, TickIncrement, true, false);
  }
}
