/** The pausable relay of pkg/proxy/proxy.go: the client goroutine (which runs commands) and the relay
    goroutine (backend to client) as one interleaved step system, one step a statement. */
module RelayProtocol {
  type Bytes = seq<bv8>

  /** Where the relay goroutine stands in `mainLoop`, lines 248-286. */
  datatype RelayPc =
    | Entry           // about to call Read, which looks at the deadline first
    | Blocked         // inside Read, waiting for data or for the deadline
    | TimedOut        // about to lock
    | Testing         // holds the lock, about to test relayPaused
    | TakingConfirm   // holds the lock
    | TakingResume    // holds the lock
    | UnlockingPaused // holds the lock
    | Confirming      // about to close the confirm channel
    | Parked          // waiting for the resume channel
    | Unlocking       // holds the lock, not paused
    | Forwarding      // about to write what it read to the client
    | Exited

  /** Where the client goroutine stands: idle, or in `pauseRelay`, the command, or `resumeRelay`. */
  datatype ClientPc =
    | Idle
    | Rejecting       // writes a parse error, line 325
    | Locking         // line 293
    | SettingPaused   // 294, holds the lock
    | MakingConfirm   // 295, holds the lock
    | MakingResume    // 296, holds the lock
    | UnlockingPause  // 297, holds the lock
    | Interrupting    // 300
    | Awaiting        // 303, waits for the confirm channel
    | Clearing        // 306
    | Handling        // the command runs
    | ClearingAgain   // 311
    | Relocking       // 312
    | ResettingPaused // 313, holds the lock
    | TakingChannel   // 314, holds the lock
    | UnlockingResume // 315, holds the lock
    | Resuming        // 316, about to close the resume channel

  datatype Holder = Free | ByRelay | ByClient

  datatype Deadline = NoDeadline | Armed | Expired

  datatype Owner = Relay | Handler

  /** A channel is a number; 0 is the nil channel and `nextChannel` the next one `make` returns. */
  datatype State = State(
    relay: RelayPc, relayConfirm: nat, relayResume: nat, held: Bytes,
    client: ClientPc, clientChannel: nat,
    mutex: Holder, relayPaused: bool, pauseConfirm: nat, resumeCh: nat,
    nextChannel: nat, closed: set<nat>, deadline: Deadline,
    arrived: Bytes, taken: nat,         // what the backend sent, and how much of it has been read
    forwarded: Bytes, handled: Bytes,   // what the relay wrote to the client, what commands read
    owners: seq<Owner>,                 // for every byte read, who read it
    windows: seq<bool>)                 // and whether a command owned the connection then

  const START := State(Entry, 0, 0, [], Idle, 0, Free, false, 0, 0, 1, {}, NoDeadline, [], 0, [], [], [], [])

  datatype Step =
    // the relay goroutine
    | RelayCall | RelayRead(n: nat) | RelayTimeout | RelayLock | RelayTest
    | RelayTakeConfirm | RelayTakeResume | RelayUnlockPaused | RelayConfirm | RelayResume
    | RelayUnlock | RelayForward | RelayFail(written: nat)
    // the client goroutine
    | ClientReject | ClientRejected | ClientBegin | ClientLock | ClientSetPaused | ClientMakeConfirm | ClientMakeResume
    | ClientUnlock | ClientInterrupt | ClientConfirmed | ClientClear
    | HandlerRead(n: nat) | HandlerDeadline(d: Deadline) | HandlerDone
    | ClientClearAgain | ClientRelock | ClientResetPaused | ClientTakeChannel | ClientUnlockResume | ClientResume
    // the rest of the world
    | BackendSend(data: Bytes) | DeadlinePasses | SpuriousTimeout

  predicate IsRelayStep(step: Step) {
    IsReadStep(step) || IsParkStep(step)
  }

  /** The relay goroutine reading, forwarding and failing. */
  predicate IsReadStep(step: Step) {
    step.RelayCall? || step.RelayRead? || step.RelayTimeout? || step.SpuriousTimeout? || step.RelayForward?
    || step.RelayFail?
  }

  /** The relay goroutine from its lock to its next round. */
  predicate IsParkStep(step: Step) {
    step.RelayLock? || step.RelayTest? || step.RelayTakeConfirm? || step.RelayTakeResume? || step.RelayUnlockPaused?
    || step.RelayConfirm? || step.RelayResume? || step.RelayUnlock?
  }

  /** The steps of a rejected command, and of `pauseRelay` up to its lock. */
  predicate IsRequestStep(step: Step) {
    step.ClientReject? || step.ClientRejected? || step.ClientBegin? || step.ClientLock?
  }

  /** The locked part of `pauseRelay`, up to its first channel. */
  predicate IsFlagStep(step: Step) {
    step.ClientSetPaused? || step.ClientMakeConfirm?
  }

  /** The second channel and the end of the locked part. */
  predicate IsPublishStep(step: Step) {
    step.ClientMakeResume? || step.ClientUnlock?
  }

  /** The rest of `pauseRelay`. */
  predicate IsAwaitStep(step: Step) {
    step.ClientInterrupt? || step.ClientConfirmed? || step.ClientClear?
  }

  predicate Readable(s: State, n: nat) {
    0 < n && s.taken <= |s.arrived| && n <= |s.arrived| - s.taken
  }

  predicate Enabled(s: State, step: Step) {
    match step
    case RelayCall => s.relay == Entry
    case RelayRead(n) => s.relay == Blocked && Readable(s, n)
    case RelayTimeout => s.relay == Blocked && s.deadline == Expired
    case SpuriousTimeout => s.relay == Blocked
    case RelayLock => s.relay == TimedOut && s.mutex == Free
    case RelayTest => s.relay == Testing
    case RelayTakeConfirm => s.relay == TakingConfirm
    case RelayTakeResume => s.relay == TakingResume
    case RelayUnlockPaused => s.relay == UnlockingPaused
    case RelayConfirm => s.relay == Confirming
    case RelayResume => s.relay == Parked && s.relayResume in s.closed
    case RelayUnlock => s.relay == Unlocking
    case RelayForward => s.relay == Forwarding
    case RelayFail(written) => s.relay == Blocked || (s.relay == Forwarding && written <= |s.held|)
    case ClientReject => s.client == Idle
    case ClientRejected => s.client == Rejecting
    case ClientBegin => s.client == Idle
    case ClientLock => s.client == Locking && s.mutex == Free
    case ClientSetPaused => s.client == SettingPaused
    case ClientMakeConfirm => s.client == MakingConfirm
    case ClientMakeResume => s.client == MakingResume
    case ClientUnlock => s.client == UnlockingPause
    case ClientInterrupt => s.client == Interrupting
    case ClientConfirmed => s.client == Awaiting && s.pauseConfirm in s.closed
    case ClientClear => s.client == Clearing
    case HandlerRead(n) => s.client == Handling && Readable(s, n)
    case HandlerDeadline(_) => s.client == Handling
    case HandlerDone => s.client == Handling
    case ClientClearAgain => s.client == ClearingAgain
    case ClientRelock => s.client == Relocking && s.mutex == Free
    case ClientResetPaused => s.client == ResettingPaused
    case ClientTakeChannel => s.client == TakingChannel
    case ClientUnlockResume => s.client == UnlockingResume
    case ClientResume => s.client == Resuming
    case BackendSend(_) => true
    case DeadlinePasses => s.deadline == Armed
  }

  /** Handing `n` bytes to `who`. */
  function Take(s: State, n: nat, who: Owner): State
    requires Readable(s, n)
  {
    s.(taken := s.taken + n,
       owners := s.owners + seq(n, _ => who),
       windows := s.windows + seq(n, _ => InWindow(s.client)))
  }

  function Apply(s: State, step: Step): State
    requires Enabled(s, step)
  {
    match step
    case RelayCall => s.(relay := if s.deadline == Expired then TimedOut else Blocked)
    case RelayRead(n) => Take(s, n, Relay).(relay := Forwarding, held := s.arrived[s.taken..s.taken + n])
    case RelayTimeout => s.(relay := TimedOut)
    case SpuriousTimeout => s.(relay := TimedOut)
    case RelayLock => s.(relay := Testing, mutex := ByRelay)
    case RelayTest => s.(relay := if s.relayPaused then TakingConfirm else Unlocking)
    case RelayTakeConfirm => s.(relay := TakingResume, relayConfirm := s.pauseConfirm)
    case RelayTakeResume => s.(relay := UnlockingPaused, relayResume := s.resumeCh)
    case RelayUnlockPaused => s.(relay := Confirming, mutex := Free)
    case RelayConfirm => s.(relay := Parked, closed := s.closed + {s.relayConfirm})
    case RelayResume => s.(relay := Entry)
    case RelayUnlock => s.(relay := Entry, mutex := Free)
    case RelayForward => s.(relay := Entry, forwarded := s.forwarded + s.held, held := [])
    case RelayFail(written) =>
      if s.relay == Blocked then s.(relay := Exited)
      else s.(relay := Exited, forwarded := s.forwarded + s.held[..written], held := s.held[written..])
    case ClientReject => s.(client := Rejecting)
    case ClientRejected => s.(client := Idle)
    case ClientBegin => s.(client := Locking)
    case ClientLock => s.(client := SettingPaused, mutex := ByClient)
    case ClientSetPaused => s.(client := MakingConfirm, relayPaused := true)
    case ClientMakeConfirm =>
      s.(client := MakingResume, pauseConfirm := s.nextChannel, nextChannel := s.nextChannel + 1)
    case ClientMakeResume =>
      s.(client := UnlockingPause, resumeCh := s.nextChannel, nextChannel := s.nextChannel + 1)
    case ClientUnlock => s.(client := Interrupting, mutex := Free)
    case ClientInterrupt => s.(client := Awaiting, deadline := Armed)
    case ClientConfirmed => s.(client := Clearing)
    case ClientClear => s.(client := Handling, deadline := NoDeadline)
    case HandlerRead(n) => Take(s, n, Handler).(handled := s.handled + s.arrived[s.taken..s.taken + n])
    case HandlerDeadline(d) => s.(deadline := d)
    case HandlerDone => s.(client := ClearingAgain)
    case ClientClearAgain => s.(client := Relocking, deadline := NoDeadline)
    case ClientRelock => s.(client := ResettingPaused, mutex := ByClient)
    case ClientResetPaused => s.(client := TakingChannel, relayPaused := false)
    case ClientTakeChannel => s.(client := UnlockingResume, clientChannel := s.resumeCh)
    case ClientUnlockResume => s.(client := Resuming, mutex := Free)
    case ClientResume => s.(client := Idle, closed := s.closed + {s.clientChannel})
    case BackendSend(data) => s.(arrived := s.arrived + data)
    case DeadlinePasses => s.(deadline := Expired)
  }

  /** From the return of `pauseRelay` until `resumeRelay` closes the resume channel. */
  predicate InWindow(c: ClientPc) {
    c.Handling? || c.ClearingAgain? || c.Relocking? || c.ResettingPaused? || c.TakingChannel? || c.UnlockingResume?
    || c.Resuming?
  }

  // ----- Runs ---------------------------------------------------------------------------------

  predicate IsRun(s: State, steps: seq<Step>)
    decreases |steps|
  {
    steps == [] || (Enabled(s, steps[0]) && IsRun(Apply(s, steps[0]), steps[1..]))
  }

  function After(s: State, steps: seq<Step>): State
    requires IsRun(s, steps)
    decreases |steps|
  {
    if steps == [] then s else After(Apply(s, steps[0]), steps[1..])
  }

  // ----- The invariant ------------------------------------------------------------------------

  predicate RelayHolds(r: RelayPc) {
    r.Testing? || r.TakingConfirm? || r.TakingResume? || r.UnlockingPaused? || r.Unlocking?
  }

  predicate ClientHolds(c: ClientPc) {
    c.SettingPaused? || c.MakingConfirm? || c.MakingResume? || c.UnlockingPause? || c.ResettingPaused?
    || c.TakingChannel? || c.UnlockingResume?
  }

  predicate MutexInv(s: State) {
    && (s.mutex == ByRelay <==> RelayHolds(s.relay))
    && (s.mutex == ByClient <==> ClientHolds(s.client))
  }

  /** The client goroutine has published the channels of a pause and not yet been confirmed. */
  predicate Requested(c: ClientPc) {
    c.UnlockingPause? || c.Interrupting? || c.Awaiting?
  }

  /** The client goroutine has seen the confirmation. */
  predicate Confirmed(c: ClientPc) {
    c == Clearing || InWindow(c)
  }

  /** After `relayPaused = true` and before `relayPaused = false`. */
  predicate BetweenFlags(c: ClientPc) {
    c.MakingConfirm? || c.MakingResume? || c.UnlockingPause? || c.Interrupting? || c.Awaiting? || c.Clearing?
    || c.Handling? || c.ClearingAgain? || c.Relocking? || c.ResettingPaused?
  }

  predicate PausedInv(s: State) {
    && (s.relayPaused <==> BetweenFlags(s.client))
    && (s.relay == Unlocking ==> !s.relayPaused)
    && (s.client.UnlockingResume? || s.client.Resuming? ==> s.clientChannel == s.resumeCh)
    && (s.client == Awaiting ==> s.deadline != NoDeadline)
  }

  predicate ChannelInv(s: State) {
    && (forall c | c in s.closed :: 0 < c < s.nextChannel)
    && 0 < s.nextChannel && s.pauseConfirm < s.nextChannel && s.resumeCh < s.nextChannel
    && (s.client == MakingResume ==> 0 < s.pauseConfirm && s.pauseConfirm !in s.closed)
    && (Requested(s.client) || Confirmed(s.client) ==>
          0 < s.pauseConfirm && 0 < s.resumeCh && s.pauseConfirm != s.resumeCh && s.resumeCh !in s.closed)
  }

  /** Parked for the pause now in force. */
  predicate ParkedNow(s: State) {
    s.relay == Parked && s.relayResume == s.resumeCh && s.resumeCh !in s.closed
  }

  predicate HandshakeInv(s: State) {
    && (Requested(s.client) && s.pauseConfirm in s.closed ==> ParkedNow(s))
    && (Confirmed(s.client) ==> ParkedNow(s))
    && (s.relay.TakingConfirm? || s.relay.TakingResume? || s.relay.UnlockingPaused? || s.relay.Confirming? ==>
          (s.client.Interrupting? || s.client.Awaiting?) && s.pauseConfirm !in s.closed)
    && (s.relay.TakingResume? || s.relay.UnlockingPaused? || s.relay.Confirming? ==> s.relayConfirm == s.pauseConfirm)
    && (s.relay.UnlockingPaused? || s.relay.Confirming? ==> s.relayResume == s.resumeCh)
    && (s.relay == Parked ==>
          s.relayResume in s.closed
          || (s.relayResume == s.resumeCh && s.pauseConfirm in s.closed
              && (Requested(s.client) || Confirmed(s.client))))
  }

  predicate ProtocolInv(s: State) {
    MutexInv(s) && PausedInv(s) && ChannelInv(s) && HandshakeInv(s)
  }

  lemma ReadKeepsProtocol(s: State, step: Step)
    requires ProtocolInv(s) && Enabled(s, step) && IsReadStep(step)
    ensures ProtocolInv(Apply(s, step))
  {}

  lemma ParkKeepsProtocol(s: State, step: Step)
    requires ProtocolInv(s) && Enabled(s, step) && IsParkStep(step)
    ensures ProtocolInv(Apply(s, step))
  {}

  lemma RequestKeepsProtocol(s: State, step: Step)
    requires ProtocolInv(s) && Enabled(s, step) && IsRequestStep(step)
    ensures ProtocolInv(Apply(s, step))
  {}

  lemma FlagKeepsProtocol(s: State, step: Step)
    requires ProtocolInv(s) && Enabled(s, step) && IsFlagStep(step)
    ensures ProtocolInv(Apply(s, step))
  {}

  lemma PublishKeepsProtocol(s: State, step: Step)
    requires ProtocolInv(s) && Enabled(s, step) && IsPublishStep(step)
    ensures ProtocolInv(Apply(s, step))
  {}

  lemma AwaitKeepsProtocol(s: State, step: Step)
    requires ProtocolInv(s) && Enabled(s, step) && IsAwaitStep(step)
    ensures ProtocolInv(Apply(s, step))
  {}

  lemma OthersKeepProtocol(s: State, step: Step)
    requires ProtocolInv(s) && Enabled(s, step)
    requires !IsRelayStep(step) && !IsRequestStep(step) && !IsFlagStep(step)
    requires !IsPublishStep(step) && !IsAwaitStep(step)
    ensures ProtocolInv(Apply(s, step))
  {}

  lemma ProtocolStep(s: State, step: Step)
    requires ProtocolInv(s) && Enabled(s, step)
    ensures ProtocolInv(Apply(s, step))
  {
    if IsReadStep(step) {
      ReadKeepsProtocol(s, step);
    } else if IsParkStep(step) {
      ParkKeepsProtocol(s, step);
    } else if IsRequestStep(step) {
      RequestKeepsProtocol(s, step);
    } else if IsFlagStep(step) {
      FlagKeepsProtocol(s, step);
    } else if IsPublishStep(step) {
      PublishKeepsProtocol(s, step);
    } else if IsAwaitStep(step) {
      AwaitKeepsProtocol(s, step);
    } else {
      OthersKeepProtocol(s, step);
    }
  }

  lemma {:induction false} ProtocolRun(s: State, steps: seq<Step>)
    requires ProtocolInv(s) && IsRun(s, steps)
    ensures ProtocolInv(After(s, steps))
    decreases |steps|
  {
    if steps != [] {
      ProtocolStep(s, steps[0]);
      ProtocolRun(Apply(s, steps[0]), steps[1..]);
    }
  }

  ghost predicate Reachable(s: State) {
    exists steps :: IsRun(START, steps) && After(START, steps) == s
  }

  lemma {:induction false} RunAppend(s: State, steps: seq<Step>, step: Step)
    requires IsRun(s, steps) && Enabled(After(s, steps), step)
    ensures IsRun(s, steps + [step]) && After(s, steps + [step]) == Apply(After(s, steps), step)
    decreases |steps|
  {
    var all := steps + [step];
    if steps == [] {
      assert all[1..] == [];
    } else {
      RunAppend(Apply(s, steps[0]), steps[1..], step);
      assert all[1..] == steps[1..] + [step];
    }
  }

  lemma ReachableStart()
    ensures Reachable(START)
  {
    assert IsRun(START, []) && After(START, []) == START;
  }

  lemma ReachableStep(s: State, step: Step)
    requires Reachable(s) && Enabled(s, step)
    ensures Reachable(Apply(s, step))
  {
    var steps :| IsRun(START, steps) && After(START, steps) == s;
    RunAppend(START, steps, step);
  }

  lemma ReachableProtocol(s: State)
    requires Reachable(s)
    ensures ProtocolInv(s)
  {
    var steps :| IsRun(START, steps) && After(START, steps) == s;
    ProtocolRun(START, steps);
  }

  // ----- Safety -------------------------------------------------------------------------------

  /** While a command owns the connection the relay goroutine can take no step at all: it is parked, and
      neither reads the backend nor writes the client. */
  lemma ExclusiveReader(s: State, step: Step)
    requires Reachable(s) && InWindow(s.client) && IsRelayStep(step)
    ensures s.relay == Parked && !Enabled(s, step)
  {
    ReachableProtocol(s);
  }

  /** Neither channel is nil or already closed when it is closed. */
  lemma NoDoubleClose(s: State)
    requires Reachable(s)
    ensures Enabled(s, RelayConfirm) ==> s.relayConfirm != 0 && s.relayConfirm !in s.closed
    ensures Enabled(s, ClientResume) ==> s.clientChannel != 0 && s.clientChannel !in s.closed
  {
    ReachableProtocol(s);
  }

  /** The two goroutines never hold the session lock together. */
  lemma MutualExclusion(s: State)
    requires Reachable(s)
    ensures !(RelayHolds(s.relay) && ClientHolds(s.client))
  {
    ReachableProtocol(s);
  }

  /** The parse-error reply is written outside every window: there the two goroutines can both be about to
      write to the client. */
  lemma RejectionIsNotExclusive() returns (s: State)
    ensures Reachable(s) && s.client == Rejecting && s.relay == Forwarding && s.held != []
  {
    ReachableStart();
    s := START;
    ReachableStep(s, BackendSend([1]));
    s := Apply(s, BackendSend([1]));
    ReachableStep(s, RelayCall);
    s := Apply(s, RelayCall);
    ReachableStep(s, RelayRead(1));
    s := Apply(s, RelayRead(1));
    ReachableStep(s, ClientReject);
    s := Apply(s, ClientReject);
  }

  // ----- Conservation of backend bytes --------------------------------------------------------

  /** The bytes read by `who`, in order. */
  function ReadBy(data: Bytes, owners: seq<Owner>, who: Owner): Bytes
    requires |data| == |owners|
  {
    if data == [] then []
    else
      var n := |data| - 1;
      ReadBy(data[..n], owners[..n], who) + if owners[n] == who then [data[n]] else []
  }

  lemma ReadByOne(data: Bytes, owners: seq<Owner>, one: bv8, reader: Owner, who: Owner)
    requires |data| == |owners|
    ensures ReadBy(data + [one], owners + [reader], who)
         == ReadBy(data, owners, who) + if reader == who then [one] else []
  {
    assert (data + [one])[..|data|] == data && (owners + [reader])[..|owners|] == owners;
  }

  lemma {:induction false} ReadByAppend(data: Bytes, owners: seq<Owner>, more: Bytes, who: Owner, reader: Owner)
    requires |data| == |owners|
    ensures ReadBy(data + more, owners + seq(|more|, _ => reader), who)
         == ReadBy(data, owners, who) + if reader == who then more else []
    decreases |more|
  {
    if more == [] {
      assert data + more == data && owners + seq(|more|, _ => reader) == owners;
    } else {
      var n := |more| - 1;
      ReadByAppend(data, owners, more[..n], who, reader);
      ReadByOne(data + more[..n], owners + seq(n, _ => reader), more[n], reader, who);
      assert more == more[..n] + [more[n]];
      assert data + more == data + more[..n] + [more[n]];
      assert owners + seq(|more|, _ => reader) == owners + seq(n, _ => reader) + [reader];
    }
  }

  predicate ByteInv(s: State) {
    && s.taken <= |s.arrived| && |s.owners| == |s.windows| == s.taken
    && s.forwarded + s.held == ReadBy(s.arrived[..s.taken], s.owners, Relay)
    && s.handled == ReadBy(s.arrived[..s.taken], s.owners, Handler)
    && (s.held != [] ==> s.relay == Forwarding || s.relay == Exited)
    && OwnersInv(s)
  }

  /** A byte is the command's exactly if it was read inside a pause. */
  predicate OwnersInv(s: State)
    requires |s.owners| == |s.windows| == s.taken
  {
    forall i | 0 <= i < s.taken :: s.owners[i] == Handler <==> s.windows[i]
  }

  lemma TakeOwners(s: State, n: nat, who: Owner)
    requires Readable(s, n) && |s.owners| == |s.windows| == s.taken && OwnersInv(s)
    requires who == Handler <==> InWindow(s.client)
    ensures OwnersInv(Take(s, n, who))
  {}

  lemma TakeBytes(s: State, n: nat, who: Owner)
    requires ByteInv(s) && Readable(s, n)
    ensures var t := Take(s, n, who);
            var read := s.arrived[s.taken..s.taken + n];
            && ReadBy(t.arrived[..t.taken], t.owners, who) == ReadBy(s.arrived[..s.taken], s.owners, who) + read
            && forall other | other != who ::
                 ReadBy(t.arrived[..t.taken], t.owners, other) == ReadBy(s.arrived[..s.taken], s.owners, other)
  {
    var read := s.arrived[s.taken..s.taken + n];
    assert s.arrived[..s.taken + n] == s.arrived[..s.taken] + read;
    forall other
      ensures ReadBy(s.arrived[..s.taken + n], s.owners + seq(n, _ => who), other)
           == ReadBy(s.arrived[..s.taken], s.owners, other) + if who == other then read else []
    {
      ReadByAppend(s.arrived[..s.taken], s.owners, read, other, who);
    }
  }

  lemma WindowIsParked(s: State)
    requires ProtocolInv(s) && InWindow(s.client)
    ensures s.relay == Parked
  {}

  lemma RelayReadBytes(s: State, n: nat)
    requires ByteInv(s) && Enabled(s, RelayRead(n)) && !InWindow(s.client)
    ensures ByteInv(Apply(s, RelayRead(n)))
  {
    TakeBytes(s, n, Relay);
    TakeOwners(s, n, Relay);
    assert s.held == [];
  }

  lemma HandlerReadBytes(s: State, n: nat)
    requires ByteInv(s) && Enabled(s, HandlerRead(n))
    ensures ByteInv(Apply(s, HandlerRead(n)))
  {
    TakeBytes(s, n, Handler);
    TakeOwners(s, n, Handler);
  }

  lemma SendBytes(s: State, data: Bytes)
    requires ByteInv(s)
    ensures ByteInv(Apply(s, BackendSend(data)))
  {
    assert (s.arrived + data)[..s.taken] == s.arrived[..s.taken];
  }

  lemma WriteBytes(s: State, step: Step)
    requires ByteInv(s) && Enabled(s, step) && (step.RelayForward? || step.RelayFail?)
    ensures ByteInv(Apply(s, step))
  {
    if step.RelayFail? && s.relay == Forwarding {
      assert s.held == s.held[..step.written] + s.held[step.written..];
    }
  }

  lemma ByteStep(s: State, step: Step)
    requires ByteInv(s) && Enabled(s, step) && (InWindow(s.client) ==> s.relay == Parked)
    ensures ByteInv(Apply(s, step))
  {
    match step
    case RelayRead(n) => RelayReadBytes(s, n);
    case HandlerRead(n) => HandlerReadBytes(s, n);
    case BackendSend(data) => SendBytes(s, data);
    case RelayForward => WriteBytes(s, step);
    case RelayFail(_) => WriteBytes(s, step);
    case _ => OtherBytes(s, step);
  }

  lemma OtherBytes(s: State, step: Step)
    requires ByteInv(s) && Enabled(s, step)
    requires !step.RelayRead? && !step.HandlerRead? && !step.BackendSend? && !step.RelayForward? && !step.RelayFail?
    ensures ByteInv(Apply(s, step))
  {
    var t := Apply(s, step);
    assert t.arrived == s.arrived && t.taken == s.taken && t.owners == s.owners && t.windows == s.windows;
    assert t.forwarded == s.forwarded && t.held == s.held && t.handled == s.handled;
    assert t.relay != s.relay ==> s.held == [];
  }

  lemma {:induction false} ByteRun(s: State, steps: seq<Step>)
    requires ProtocolInv(s) && ByteInv(s) && IsRun(s, steps)
    ensures ByteInv(After(s, steps))
    decreases |steps|
  {
    if steps != [] {
      ProtocolStep(s, steps[0]);
      if InWindow(s.client) {
        WindowIsParked(s);
      }
      ByteStep(s, steps[0]);
      ByteRun(Apply(s, steps[0]), steps[1..]);
    }
  }

  /** Over any run with any number of pauses: every byte read has one reader, the command's exactly when it
      was read inside a window; what was forwarded, together with what the relay still holds, is the
      bytes read outside the windows in order; and commands got the others in order. */
  lemma BytesConserved(s: State)
    requires Reachable(s)
    ensures s.taken <= |s.arrived| && |s.owners| == |s.windows| == s.taken
    ensures forall i | 0 <= i < s.taken :: s.owners[i] == Handler <==> s.windows[i]
    ensures s.forwarded + s.held == ReadBy(s.arrived[..s.taken], s.owners, Relay)
    ensures s.handled == ReadBy(s.arrived[..s.taken], s.owners, Handler)
    ensures s.held != [] ==> s.relay == Forwarding || s.relay == Exited
  {
    var steps :| IsRun(START, steps) && After(START, steps) == s;
    ByteRun(START, steps);
  }

  // ----- Progress of a pause ------------------------------------------------------------------

  /** `pauseRelay` waits for its confirmation. */
  predicate Unconfirmed(s: State) {
    s.client == Awaiting && s.pauseConfirm !in s.closed
  }

  /** `pauseRelay` can go on. */
  predicate Confirmable(s: State) {
    s.client == Awaiting && s.pauseConfirm in s.closed
  }

  predicate Settled(s: State) {
    s.relay == Exited || Confirmable(s)
  }

  predicate Draining(s: State) {
    ProtocolInv(s) && Unconfirmed(s) && s.relay != Exited && s.deadline == Expired
  }

  /** How far the relay goroutine is from confirming, once the deadline has passed. */
  function Rank(r: RelayPc): nat {
    match r
    case Parked => 11 case Blocked => 10 case Forwarding => 9 case Unlocking => 8 case Entry => 7 case TimedOut => 6
    case Testing => 5 case TakingConfirm => 4 case TakingResume => 3 case UnlockingPaused => 2 case Confirming => 1
    case Exited => 0
  }

  /** Whatever happens next, the pause is confirmed, or the relay exits, or its rank goes down with every
      step it takes and stays with every other step. */
  lemma DrainStep(s: State, step: Step)
    requires Draining(s) && Enabled(s, step)
    ensures var t := Apply(s, step);
            || Settled(t)
            || (Draining(t) && if IsRelayStep(step) then Rank(t.relay) < Rank(s.relay) else t.relay == s.relay)
  {
    ProtocolStep(s, step);
  }

  function RelaySteps(steps: seq<Step>): nat {
    if steps == [] then 0 else (if IsRelayStep(steps[0]) then 1 else 0) + RelaySteps(steps[1..])
  }

  ghost predicate ReachesAlong(s: State, steps: seq<Step>, k: nat)
    requires IsRun(s, steps)
    decreases |steps|
  {
    k <= |steps| &&
    if k == 0 then Settled(s) else ReachesAlong(Apply(s, steps[0]), steps[1..], k - 1)
  }

  predicate DrainingRun(s: State, steps: seq<Step>) {
    Draining(s) && IsRun(s, steps) && RelaySteps(steps) >= Rank(s.relay)
  }

  lemma DrainingRunStep(s: State, steps: seq<Step>)
    requires DrainingRun(s, steps)
    ensures steps != [] && (Settled(Apply(s, steps[0])) || DrainingRun(Apply(s, steps[0]), steps[1..]))
  {
    DrainStep(s, steps[0]);
  }

  /** Every run in which the relay takes as many steps as its rank passes through a state where the pause is
      confirmed, unless the relay exits. */
  lemma {:induction false} BoundedPause(s: State, steps: seq<Step>) returns (k: nat)
    requires DrainingRun(s, steps)
    ensures IsRun(s, steps) && ReachesAlong(s, steps, k)
    decreases |steps|
  {
    DrainingRunStep(s, steps);
    var t := Apply(s, steps[0]);
    if Settled(t) {
      assert ReachesAlong(t, steps[1..], 0);
      k := 1;
    } else {
      var k' := BoundedPause(t, steps[1..]);
      k := k' + 1;
    }
  }

  /** The step the relay goroutine takes next when nothing fails. */
  function NextOfRelay(s: State): Step {
    match s.relay
    case Entry => RelayCall case Blocked => RelayTimeout case TimedOut => RelayLock case Testing => RelayTest
    case TakingConfirm => RelayTakeConfirm case TakingResume => RelayTakeResume
    case UnlockingPaused => RelayUnlockPaused case Confirming => RelayConfirm case Parked => RelayResume
    case Unlocking => RelayUnlock case Forwarding => RelayForward case Exited => RelayCall
  }

  function NextOfClient(s: State): Step {
    match s.client
    case Idle => ClientBegin case Rejecting => ClientRejected case Locking => ClientLock
    case SettingPaused => ClientSetPaused case MakingConfirm => ClientMakeConfirm case MakingResume => ClientMakeResume
    case UnlockingPause => ClientUnlock case Interrupting => ClientInterrupt case Awaiting => ClientConfirmed
    case Clearing => ClientClear case Handling => HandlerDone case ClearingAgain => ClientClearAgain
    case Relocking => ClientRelock case ResettingPaused => ClientResetPaused case TakingChannel => ClientTakeChannel
    case UnlockingResume => ClientUnlockResume case Resuming => ClientResume
  }

  lemma ClientWaits(s: State)
    requires !Enabled(s, NextOfClient(s))
    ensures s.client == Awaiting || ((s.client == Locking || s.client == Relocking) && s.mutex != Free)
  {}

  lemma RelayMoves(s: State)
    requires ProtocolInv(s) && s.relay != Exited
    requires Unconfirmed(s) || s.mutex == ByRelay
    ensures Enabled(s, NextOfRelay(s)) || Enabled(s, DeadlinePasses)
  {}

  /** A client goroutine that waits for the lock or for the confirmation has the relay or the deadline to
      move it on. */
  lemma ClientNotDeadlocked(s: State)
    requires Reachable(s) && s.relay != Exited && !Enabled(s, NextOfClient(s))
    ensures Enabled(s, NextOfRelay(s)) || Enabled(s, DeadlinePasses)
  {
    ReachableProtocol(s);
    ClientWaits(s);
    RelayMoves(s);
  }

  lemma RelayWaits(s: State)
    requires s.relay != Exited && s.relay != Blocked && !Enabled(s, NextOfRelay(s))
    ensures (s.relay == TimedOut && s.mutex != Free) || (s.relay == Parked && s.relayResume !in s.closed)
  {}

  lemma ClientMoves(s: State)
    requires ProtocolInv(s)
    requires s.mutex == ByClient || (s.relay == Parked && s.relayResume !in s.closed)
    ensures Enabled(s, NextOfClient(s))
  {}

  /** A relay goroutine that waits for the lock or to be resumed has the client goroutine to move it on. */
  lemma RelayNotDeadlocked(s: State)
    requires Reachable(s) && s.relay != Exited && s.relay != Blocked && !Enabled(s, NextOfRelay(s))
    ensures Enabled(s, NextOfClient(s))
  {
    ReachableProtocol(s);
    RelayWaits(s);
    ClientMoves(s);
  }

  // ----- When a pause can never be confirmed --------------------------------------------------

  /** Once the relay has exited without confirming, no run ever confirms the pause. */
  lemma {:induction false} StuckForever(s: State, steps: seq<Step>)
    requires ProtocolInv(s) && Unconfirmed(s) && s.relay == Exited && IsRun(s, steps)
    ensures Unconfirmed(After(s, steps))
    decreases |steps|
  {
    if steps != [] {
      ProtocolStep(s, steps[0]);
      StuckForever(Apply(s, steps[0]), steps[1..]);
    }
  }

  lemma NextMoves(s: State)
    requires Draining(s)
    ensures Enabled(s, NextOfRelay(s)) && IsRelayStep(NextOfRelay(s))
    ensures var t := Apply(s, NextOfRelay(s));
            t.relay != Exited && t.arrived == s.arrived && t.taken == s.taken && t.client == s.client
  {}

  /** Once the deadline has passed the relay can confirm without reading another byte. */
  lemma {:induction false} ConfirmingRun(s: State) returns (steps: seq<Step>)
    requires Draining(s)
    ensures IsRun(s, steps) && Confirmable(After(s, steps))
    ensures After(s, steps).arrived == s.arrived && After(s, steps).taken == s.taken
    decreases Rank(s.relay)
  {
    var step := NextOfRelay(s);
    NextMoves(s);
    DrainStep(s, step);
    var t := Apply(s, step);
    var rest := [];
    if !Confirmable(t) {
      rest := ConfirmingRun(t);
    }
    steps := [step] + rest;
    assert steps[1..] == rest;
  }

  ghost predicate CanConfirm(s: State) {
    exists steps :: IsRun(s, steps) && Confirmable(After(s, steps))
  }

  lemma ExitedCannotConfirm(s: State)
    requires ProtocolInv(s) && Unconfirmed(s) && s.relay == Exited
    ensures !CanConfirm(s)
  {
    forall steps | IsRun(s, steps)
      ensures !Confirmable(After(s, steps))
    {
      StuckForever(s, steps);
    }
  }

  /** A waiting pause can still be confirmed exactly when the relay goroutine has not exited. */
  lemma PauseCompletesIffRelayLives(s: State)
    requires Reachable(s) && Unconfirmed(s)
    ensures CanConfirm(s) <==> s.relay != Exited
  {
    ReachableProtocol(s);
    if s.relay == Exited {
      ExitedCannotConfirm(s);
    } else if s.deadline == Expired {
      var steps := ConfirmingRun(s);
    } else {
      ProtocolStep(s, DeadlinePasses);
      var rest := ConfirmingRun(Apply(s, DeadlinePasses));
      var steps := [DeadlinePasses] + rest;
      assert steps[1..] == rest;
      assert IsRun(s, steps) && Confirmable(After(s, steps));
    }
  }
}
