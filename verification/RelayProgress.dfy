/** What the pause of pkg/proxy/proxy.go promises about getting on: the client goroutine works through a command in a
    fixed number of steps of its own, and only a failure ends the relay. */
module RelayProgress {
  import opened RelayProtocol
  import opened RelayRaces

  /** How many steps of its own the client goroutine is from being idle again. */
  function Left(c: ClientPc): nat {
    match c
    case Idle => 0 case Rejecting => 1
    case Locking => 15 case SettingPaused => 14 case MakingConfirm => 13 case MakingResume => 12
    case UnlockingPause => 11 case Interrupting => 10 case Awaiting => 9 case Clearing => 8 case Handling => 7
    case ClearingAgain => 6 case Relocking => 5 case ResettingPaused => 4 case TakingChannel => 3
    case UnlockingResume => 2 case Resuming => 1
  }

  /** A step of the client goroutine other than what the command does with the connection. */
  predicate Advances(step: Step) {
    !ByOthers(step) && !step.HandlerRead? && !step.HandlerDeadline?
  }

  lemma PauseAdvances(s: State, step: Step)
    requires Enabled(s, step) && s.client != Idle && Advances(step) && Left(s.client) >= 9
    ensures Left(Apply(s, step).client) + 1 == Left(s.client)
  {}

  lemma ResumeAdvances(s: State, step: Step)
    requires Enabled(s, step) && s.client != Idle && Advances(step) && Left(s.client) < 9
    ensures Left(Apply(s, step).client) + 1 == Left(s.client)
  {}

  lemma CommandStays(s: State, step: Step)
    requires Enabled(s, step) && (step.HandlerRead? || step.HandlerDeadline?)
    ensures Apply(s, step).client == s.client
  {}

  /** The client goroutine is moved by its own steps only, one place at a time. */
  lemma OwnStep(s: State, step: Step)
    requires Enabled(s, step) && s.client != Idle
    ensures var t := Apply(s, step);
            if Advances(step) then Left(t.client) + 1 == Left(s.client) else t.client == s.client
  {
    if ByOthers(step) {
      OthersStep(s, step);
    } else if !Advances(step) {
      CommandStays(s, step);
    } else if Left(s.client) >= 9 {
      PauseAdvances(s, step);
    } else {
      ResumeAdvances(s, step);
    }
  }

  /** A command starts with all of them to do, a statement that does not parse with one. */
  lemma CommandStarts(s: State, step: Step)
    requires Enabled(s, step) && s.client == Idle && Advances(step)
    ensures Left(Apply(s, step).client) == if step.ClientBegin? then 15 else 1
  {}

  function Advanced(steps: seq<Step>): nat {
    if steps == [] then 0 else (if Advances(steps[0]) then 1 else 0) + Advanced(steps[1..])
  }

  /** In every run the command's place is what the client goroutine's own steps make of it, until it is idle: it is
      after exactly so many of them, whatever the relay, the network and the clock do in between. */
  lemma {:induction false} CommandEnds(s: State, steps: seq<Step>)
    requires IsRun(s, steps) && Advanced(steps) <= Left(s.client)
    ensures Left(After(s, steps).client) == Left(s.client) - Advanced(steps)
    decreases |steps|
  {
    if steps != [] {
      var t := Apply(s, steps[0]);
      if s.client == Idle {
        IdleStays(s, steps[0]);
      } else {
        OwnStep(s, steps[0]);
      }
      CommandEnds(t, steps[1..]);
    }
  }

  lemma IdleStays(s: State, step: Step)
    requires Enabled(s, step) && s.client == Idle && !Advances(step)
    ensures Apply(s, step).client == Idle
  {
    if ByOthers(step) {
      OthersStep(s, step);
    }
  }

  /** Once the command has closed its channel, and until the next pause publishes new ones, a parked relay can go on. */
  lemma ResumedRelayGoesOn(s: State)
    requires Reachable(s) && s.relay == Parked
    requires s.client.Idle? || s.client.Rejecting? || s.client.Locking? || s.client.SettingPaused?
             || s.client.MakingConfirm? || s.client.MakingResume?
    ensures Enabled(s, RelayResume)
  {
    ReachableProtocol(s);
  }

  /** No timeout, no pause and no command ends the relay: it exits exactly with a failed read or write. */
  lemma OnlyFailureExits(s: State, step: Step)
    requires Enabled(s, step) && s.relay != Exited
    ensures Apply(s, step).relay == Exited <==> step.RelayFail?
  {
    if IsParkStep(step) {
      ParkGoesOn(s, step);
    }
  }

  lemma ParkGoesOn(s: State, step: Step)
    requires Enabled(s, step) && IsParkStep(step)
    ensures Apply(s, step).relay != Exited
  {}
}
