/** Where the pause of pkg/proxy/proxy.go does not separate the two goroutines: replies to statements that do not
    parse, and bytes that arrive before the pause. */
module RelayRaces {
  import opened RelayProtocol

  // ----- The deadline is set by pauses and commands only --------------------------------------

  predicate DeadlineInv(s: State) {
    s.deadline != NoDeadline ==>
      s.client.Awaiting? || s.client.Clearing? || s.client.Handling? || s.client.ClearingAgain?
  }

  lemma DeadlineStep(s: State, step: Step)
    requires DeadlineInv(s) && Enabled(s, step)
    ensures DeadlineInv(Apply(s, step))
  {
    if IsRelayStep(step) {
      assert Apply(s, step).deadline == s.deadline && Apply(s, step).client == s.client;
    }
  }

  lemma {:induction false} DeadlineRun(s: State, steps: seq<Step>)
    requires DeadlineInv(s) && IsRun(s, steps)
    ensures DeadlineInv(After(s, steps))
    decreases |steps|
  {
    if steps != [] {
      DeadlineStep(s, steps[0]);
      DeadlineRun(Apply(s, steps[0]), steps[1..]);
    }
  }

  /** From the second reset of the deadline in `pauseRelay`, a run in which the command neither sets one nor ends. */
  predicate QuietRun(s: State, steps: seq<Step>) {
    IsRun(s, steps) && s.client == Clearing
    && forall i | 0 <= i < |steps| :: !steps[i].HandlerDone? && !steps[i].HandlerDeadline?
  }

  lemma {:induction false} StaysQuiet(s: State, steps: seq<Step>)
    requires s.client == Handling && s.deadline == NoDeadline && IsRun(s, steps)
    requires forall i | 0 <= i < |steps| :: !steps[i].HandlerDone? && !steps[i].HandlerDeadline?
    ensures After(s, steps).client == Handling && After(s, steps).deadline == NoDeadline
    decreases |steps|
  {
    if steps != [] {
      var t := Apply(s, steps[0]);
      if IsRelayStep(steps[0]) {
        assert t.deadline == s.deadline && t.client == s.client;
      }
      StaysQuiet(t, steps[1..]);
    }
  }

  lemma LeavesClearing(s: State, step: Step)
    requires s.client == Clearing && Enabled(s, step) && Apply(s, step).client != Clearing
    ensures step.ClientClear?
  {
    if ByOthers(step) {
      OthersStep(s, step);
    }
  }

  /** The deadline that interrupts the relay never reaches the command: as long as the command sets none of its
      own, none is set from its start on. */
  lemma {:induction false} InterruptEndsBeforeCommand(s: State, steps: seq<Step>)
    requires QuietRun(s, steps)
    ensures var t := After(s, steps); t.client != Clearing ==> t.client == Handling && t.deadline == NoDeadline
    decreases |steps|
  {
    if steps != [] {
      var t := Apply(s, steps[0]);
      if t.client == Clearing {
        InterruptEndsBeforeCommand(t, steps[1..]);
      } else {
        LeavesClearing(s, steps[0]);
        StaysQuiet(t, steps[1..]);
      }
    }
  }

  /** Between commands no deadline is set at all: the relay waits for data for as long as it takes. */
  lemma NoDeadlineBetween(s: State)
    requires Reachable(s) && (s.client == Idle || s.client == Rejecting)
    ensures s.deadline == NoDeadline
  {
    var steps :| IsRun(START, steps) && After(START, steps) == s;
    DeadlineRun(START, steps);
  }

  lemma {:induction false} RunConcat(s: State, a: seq<Step>, b: seq<Step>)
    requires IsRun(s, a) && IsRun(After(s, a), b)
    ensures IsRun(s, a + b) && After(s, a + b) == After(After(s, a), b)
    decreases |a|
  {
    if a == [] {
      assert a + b == b;
    } else {
      RunConcat(Apply(s, a[0]), a[1..], b);
      assert (a + b)[1..] == a[1..] + b;
    }
  }

  // ----- Steps that are not the client goroutine's --------------------------------------------

  predicate ByOthers(step: Step) {
    IsRelayStep(step) || step.BackendSend? || step.DeadlinePasses?
  }

  predicate WithoutClient(steps: seq<Step>) {
    forall i | 0 <= i < |steps| :: ByOthers(steps[i])
  }

  predicate SameClient(s: State, t: State) {
    t.client == s.client && (s.relay == Exited ==> t.relay == Exited)
  }

  lemma ReadKeepsClient(s: State, step: Step)
    requires Enabled(s, step) && IsReadStep(step)
    ensures SameClient(s, Apply(s, step))
  {}

  lemma ParkKeepsClient(s: State, step: Step)
    requires Enabled(s, step) && IsParkStep(step)
    ensures SameClient(s, Apply(s, step))
  {}

  lemma OthersStep(s: State, step: Step)
    requires Enabled(s, step) && ByOthers(step)
    ensures SameClient(s, Apply(s, step))
  {
    if IsReadStep(step) {
      ReadKeepsClient(s, step);
    } else if IsParkStep(step) {
      ParkKeepsClient(s, step);
    }
  }

  lemma {:induction false} OthersRun(s: State, steps: seq<Step>)
    requires IsRun(s, steps) && WithoutClient(steps)
    ensures SameClient(s, After(s, steps))
    decreases |steps|
  {
    if steps != [] {
      OthersStep(s, steps[0]);
      OthersRun(Apply(s, steps[0]), steps[1..]);
    }
  }

  // ----- From a rejection to a relay write ----------------------------------------------------

  predicate RejectingLive(s: State) {
    ProtocolInv(s) && DeadlineInv(s) && s.taken <= |s.arrived| && s.client == Rejecting && s.relay != Exited
  }

  /** How far the relay goroutine is from waiting for data. */
  function Distance(r: RelayPc): nat {
    match r
    case Blocked => 0 case Entry => 1 case Parked => 2 case Unlocking => 2 case Forwarding => 2 case Testing => 3
    case TimedOut => 4 case _ => 5
  }

  lemma TowardsRead(s: State)
    requires RejectingLive(s) && s.relay != Blocked
    ensures Enabled(s, NextOfRelay(s)) && ByOthers(NextOfRelay(s))
    ensures var t := Apply(s, NextOfRelay(s)); RejectingLive(t) && Distance(t.relay) < Distance(s.relay)
  {
    RelayCanMove(s);
    ProtocolStep(s, NextOfRelay(s));
    DeadlineStep(s, NextOfRelay(s));
  }

  lemma RelayCanMove(s: State)
    requires RejectingLive(s) && s.relay != Blocked
    ensures Enabled(s, NextOfRelay(s)) && ByOthers(NextOfRelay(s))
    ensures var t := Apply(s, NextOfRelay(s));
            && t.client == Rejecting && t.relay != Exited && t.taken <= |t.arrived|
            && Distance(t.relay) < Distance(s.relay)
  {}

  lemma {:induction false} ReachesRead(s: State) returns (steps: seq<Step>)
    requires RejectingLive(s)
    ensures IsRun(s, steps) && WithoutClient(steps)
    ensures RejectingLive(After(s, steps)) && After(s, steps).relay == Blocked
    decreases Distance(s.relay)
  {
    if s.relay == Blocked {
      steps := [];
    } else {
      TowardsRead(s);
      var rest := ReachesRead(Apply(s, NextOfRelay(s)));
      steps := [NextOfRelay(s)] + rest;
      assert steps[1..] == rest;
    }
  }

  /** The relay goroutine is about to write to the client. */
  predicate RelayWrites(s: State) {
    s.relay == Forwarding && s.held != []
  }

  /** While the client goroutine stays where it is, the relay may come to write to the client. */
  ghost predicate CanCollide(s: State) {
    exists steps :: IsRun(s, steps) && WithoutClient(steps) && RelayWrites(After(s, steps))
  }

  lemma ReadAndWrite(s: State)
    requires s.relay == Blocked && s.taken <= |s.arrived|
    ensures var steps := [BackendSend([1]), RelayRead(1)];
            IsRun(s, steps) && WithoutClient(steps) && RelayWrites(After(s, steps))
  {
    var steps := [BackendSend([1]), RelayRead(1)];
    ReadOne(Apply(s, BackendSend([1])));
    assert steps[1..] == [RelayRead(1)];
  }

  lemma ReadOne(t: State)
    requires t.relay == Blocked && t.taken < |t.arrived|
    ensures IsRun(t, [RelayRead(1)]) && RelayWrites(After(t, [RelayRead(1)]))
  {
    assert [RelayRead(1)][1..] == [];
    var u := Apply(t, RelayRead(1));
    assert |t.arrived[t.taken..t.taken + 1]| == 1 && IsRun(u, []) && After(u, []) == u;
  }

  lemma LiveCollides(s: State)
    requires RejectingLive(s)
    ensures CanCollide(s)
  {
    var a := ReachesRead(s);
    var b := [BackendSend([1]), RelayRead(1)];
    ReadAndWrite(After(s, a));
    RunConcat(s, a, b);
    assert WithoutClient(a + b);
  }

  /** Main result: when the client goroutine is about to reply, be it to a statement that does not parse or from
      within a command, the relay may come to write to the client at the same time exactly if the statement did
      not parse and the relay goroutine has not exited. */
  lemma ReplyCollidesIff(s: State)
    requires Reachable(s) && (s.client == Rejecting || s.client == Handling)
    ensures CanCollide(s) <==> s.client == Rejecting && s.relay != Exited
  {
    ReachableProtocol(s);
    var before :| IsRun(START, before) && After(START, before) == s;
    DeadlineRun(START, before);
    BytesConserved(s);
    if s.client == Rejecting && s.relay != Exited {
      LiveCollides(s);
    } else {
      forall steps | IsRun(s, steps) && WithoutClient(steps)
        ensures !RelayWrites(After(s, steps))
      {
        OthersRun(s, steps);
        ProtocolRun(s, steps);
        if s.client == Handling {
          WindowIsParked(After(s, steps));
        }
      }
    }
  }

  // ----- Bytes that arrived before the command ------------------------------------------------

  /** A run of everybody that does not end the command. */
  predicate CommandRun(s: State, steps: seq<Step>) {
    IsRun(s, steps) && forall i | 0 <= i < |steps| :: !steps[i].HandlerDone?
  }

  /** The relay has no step in it, so that only the command reads. */
  lemma CommandStep(s: State, step: Step)
    requires ProtocolInv(s) && s.client == Handling && s.taken <= |s.arrived|
    requires Enabled(s, step) && !step.HandlerDone?
    ensures var t := Apply(s, step);
            && ProtocolInv(t) && t.client == Handling && s.arrived <= t.arrived && s.taken <= t.taken <= |t.arrived|
            && t.handled == s.handled + t.arrived[s.taken..t.taken]
  {
    ProtocolStep(s, step);
    assert ParkedNow(s);
  }

  /** Reading up to `j` and then on to `k`. */
  lemma ReadOn(before: Bytes, after: Bytes, i: nat, j: nat, k: nat, read: Bytes)
    requires before <= after && i <= j <= |before| && j <= k <= |after|
    ensures read + before[i..j] + after[j..k] == read + after[i..k]
  {
    assert after[i..k] == before[i..j] + after[j..k];
  }

  /** Reading from `i` to `k`, first what had arrived before. */
  lemma StaleFirst(before: Bytes, after: Bytes, i: nat, k: nat)
    requires before <= after && i <= |before| && i <= k <= |after|
    ensures var j := Min(k, |before|); after[i..k] == before[i..j] + after[j..k]
  {}

  lemma {:induction false} CommandRunReads(s: State, steps: seq<Step>)
    requires ProtocolInv(s) && s.client == Handling && s.taken <= |s.arrived| && CommandRun(s, steps)
    ensures var t := After(s, steps);
            && s.arrived <= t.arrived && s.taken <= t.taken <= |t.arrived|
            && t.handled == s.handled + t.arrived[s.taken..t.taken]
    decreases |steps|
  {
    if steps != [] {
      CommandStep(s, steps[0]);
      var u, t := Apply(s, steps[0]), After(s, steps);
      CommandRunReads(u, steps[1..]);
      ReadOn(u.arrived, t.arrived, s.taken, u.taken, t.taken, s.handled);
    }
  }

  function Min(a: int, b: int): int {
    if a < b then a else b
  }

  /** How many of the bytes that the command has read by `t` had arrived before it started in `s`. */
  function StaleCount(s: State, t: State): int {
    Min(t.taken, |s.arrived|) - s.taken
  }

  /** Main result: whatever happens while a command runs, it has read what arrived, in order and without a gap: first
      whatever was unread as it started, as far as it read, and only then bytes that arrived since. */
  lemma CommandReads(s: State, steps: seq<Step>)
    requires Reachable(s) && s.client == Handling && CommandRun(s, steps)
    ensures var t := After(s, steps); var stale := StaleCount(s, t);
            && 0 <= stale <= t.taken - s.taken && s.taken + stale <= |s.arrived| <= |t.arrived|
            && (stale < t.taken - s.taken ==> s.taken + stale == |s.arrived|)
            && s.taken + stale <= t.taken <= |t.arrived|
            && t.handled == s.handled + (s.arrived[s.taken..s.taken + stale] + t.arrived[s.taken + stale..t.taken])
  {
    ReachableProtocol(s);
    BytesConserved(s);
    CommandRunReads(s, steps);
    StaleFirst(s.arrived, After(s, steps).arrived, s.taken, After(s, steps).taken);
  }

  lemma UnreadIsRead(s: State, n: nat)
    requires s.client == Handling && s.taken + n <= |s.arrived|
    ensures var steps := if n == 0 then [] else [HandlerRead(n)];
            CommandRun(s, steps) && StaleCount(s, After(s, steps)) == n
  {
    if n > 0 {
      var t := Apply(s, HandlerRead(n));
      assert [HandlerRead(n)][1..] == [] && IsRun(t, []);
    }
  }

  /** The numbers of stale bytes a command may read are those up to what was unread as it started; so it is sure to read
      fresh bytes only exactly when nothing was. */
  lemma StaleBytesIff(s: State, n: nat)
    requires Reachable(s) && s.client == Handling
    ensures (exists steps :: CommandRun(s, steps) && StaleCount(s, After(s, steps)) == n) <==>
              n <= |s.arrived| - s.taken
  {
    BytesConserved(s);
    if n <= |s.arrived| - s.taken {
      UnreadIsRead(s, n);
    }
    forall steps | CommandRun(s, steps)
      ensures StaleCount(s, After(s, steps)) <= |s.arrived| - s.taken
    {
      CommandReads(s, steps);
    }
  }

  lemma Resumes(s: State)
    requires Confirmable(s)
    ensures var steps := [ClientConfirmed, ClientClear];
            && IsRun(s, steps) && After(s, steps).client == Handling
            && After(s, steps).arrived == s.arrived && After(s, steps).taken == s.taken
  {
    var steps := [ClientConfirmed, ClientClear];
    var t := Apply(s, steps[0]);
    assert steps[1..] == [ClientClear] && steps[1..][1..] == [];
    assert IsRun(Apply(t, ClientClear), []);
  }

  /** Whatever is unread while a pause waits can still be unread when its command starts, if the relay lives. */
  lemma UnreadReachesCommand(s: State) returns (steps: seq<Step>)
    requires Reachable(s) && Unconfirmed(s) && s.relay != Exited
    ensures IsRun(s, steps)
    ensures var t := After(s, steps); t.client == Handling && t.arrived == s.arrived && t.taken == s.taken
  {
    ReachableProtocol(s);
    if s.deadline == Expired {
      var a := ConfirmingRun(s);
      Resumes(After(s, a));
      RunConcat(s, a, [ClientConfirmed, ClientClear]);
      steps := a + [ClientConfirmed, ClientClear];
    } else {
      ProtocolStep(s, DeadlinePasses);
      var u := Apply(s, DeadlinePasses);
      var a := ConfirmingRun(u);
      Resumes(After(u, a));
      RunConcat(u, a, [ClientConfirmed, ClientClear]);
      steps := [DeadlinePasses] + (a + [ClientConfirmed, ClientClear]);
      assert steps[1..] == a + [ClientConfirmed, ClientClear];
    }
  }
}
