// The update state machine composed with the application: the boot flow, the
// self-test, and the task that checks for a published version, with a reset
// possible between any two steps.

module UpdateLoop {
  import opened Prelude
  import opened FlashLayout
  import opened UpdateLifecycle

  // ----- Policy -----

  datatype Signals = Signals(relayOk: bool, reedOk: bool, networkOk: bool)

  datatype SelfTest = Commit | RevertImage

  // The network does not count.
  function Evaluate(s: Signals): SelfTest { if s.relayOk && s.reedOk then Commit else RevertImage }

  datatype Decision = Update | Skip

  function Decide(local: u32, remote: u32): Decision { if remote != local then Update else Skip }

  // ----- The running application -----

  datatype Phase =
    | Starting                       // the image runs; the boot state is not read yet
    | HardwareTest                   // on trial: the mandatory checks
    | NetworkWait(signals: Signals)  // on trial: the best-effort network check
    | Confirming                     // on trial: about to confirm
    | Hung                           // the watchdog is no longer fed
    | Spawning(checkAllowed: bool)   // about to start the update task
    | Idle                           // the task waits for a request
    | Checking                       // the task fetches the published version
    | Fetching                       // the task fetches and stages an image
    | Verified                       // the image is staged and its digest matched
    | Resetting                      // marked; the system reset is next

  // `requested` is the latched request signal. The history: the operations on the
  // state machine, the swaps and rollbacks made, the manual requests, and the boots
  // of a reverted image that could not read the boot state.
  datatype System = System(
    m: Machine, phase: Phase, requested: bool,
    ops: seq<Op>, swaps: nat, rollbacks: nat, requests: nat, misreads: nat)

  function Start(version: u32): System { System(NewMachine(version), Starting, false, [], 0, 0, 0, 0) }

  datatype Event =
    | ReadState(ok: bool)
    | HardwareChecked(relayOk: bool, reedOk: bool)
    | NetworkChecked(up: bool)
    | ConfirmDone(ok: bool)
    | TaskStarts
    | Request
    | TakeRequest
    | VersionFetched
    | CheckFails
    | ImageVerified(size: u32)
    | MarkDone(ok: bool)
    | SystemReset
    | Crash

  // A reset: the bootloader acts, and the image it starts begins anew.
  function Reboot(s: System): System
    requires s.m.CanReset()
  {
    System(Apply(s.m, Reset), Starting, false, s.ops + [Reset],
           if s.m.Action() == SwappedAndBoot then s.swaps + 1 else s.swaps,
           if s.m.Action() == RolledBackAndBoot then s.rollbacks + 1 else s.rollbacks,
           s.requests, s.misreads)
  }

  function Perform(s: System, op: Op, phase: Phase): System
    requires s.m.CanReset()
  {
    s.(m := Apply(s.m, op), ops := s.ops + [op], phase := phase)
  }

  // One step, when it can happen. Every image reports the version it is published
  // as; `remote` is the version published throughout.
  function Next(s: System, e: Event, remote: u32): Option<System>
    requires s.m.CanReset()
  {
    match e
    case ReadState(ok) =>
      if s.phase != Starting then None
      else if !ok then
        Some(s.(phase := Spawning(true), misreads := if s.m.state == Revert then s.misreads + 1 else s.misreads))
      else if s.m.state == SwapTesting then Some(s.(phase := HardwareTest))
      else Some(s.(phase := Spawning(s.m.state != Revert)))
    case HardwareChecked(relayOk, reedOk) =>
      var signals := Signals(relayOk, reedOk, false);
      if s.phase != HardwareTest then None
      else Some(s.(phase := if Evaluate(signals) == RevertImage then Hung else NetworkWait(signals)))
    case NetworkChecked(up) =>
      if !s.phase.NetworkWait? then None
      else Some(s.(phase := if Evaluate(s.phase.signals.(networkOk := up)) == Commit then Confirming else Hung))
    case ConfirmDone(ok) =>
      if s.phase != Confirming then None
      else if ok then Some(Perform(s, Confirm, Spawning(true)))
      else Some(s.(phase := Spawning(true)))
    case TaskStarts =>
      if !s.phase.Spawning? then None
      else Some(s.(phase := if s.phase.checkAllowed then Checking else Idle))
    case Request => Some(s.(requested := true, requests := s.requests + 1))
    case TakeRequest =>
      if s.phase != Idle || !s.requested then None else Some(s.(phase := Checking, requested := false))
    case VersionFetched =>
      if s.phase != Checking then None
      else Some(s.(phase := if Decide(s.m.active, remote) == Update then Fetching else Idle))
    case CheckFails =>
      if s.phase == Checking || s.phase == Fetching then Some(s.(phase := Idle)) else None
    case ImageVerified(size) =>
      if s.phase != Fetching then None
      else Some(Perform(s, Stage(remote, size), if CanFitInActive(size) then Verified else Idle))
    case MarkDone(ok) =>
      if s.phase != Verified then None
      else if ok && s.m.MayMark() then Some(Perform(s, Mark, Resetting))
      else Some(s.(phase := Idle))
    case SystemReset => if s.phase == Resetting then Some(Reboot(s)) else None
    case Crash => Some(Reboot(s))
  }

  // The system after a run of events, all of which can happen.
  function SystemAfter(version: u32, events: seq<Event>, remote: u32): (r: Option<System>)
    ensures r.Some? ==> r.value.m.CanReset()
  {
    if events == [] then Some(Start(version))
    else
      var before :- SystemAfter(version, events[..|events| - 1], remote);
      Next(before, events[|events| - 1], remote)
  }

  // ----- No update and rollback loop -----

  // A check is under way, or a request waits for the task.
  predicate CheckAhead(s: System) {
    s.requested || s.phase == Spawning(true) || s.phase == Checking || s.phase == Fetching || s.phase == Verified
  }

  // The swaps the system can still make without another request or misread.
  function SwapsAhead(s: System, remote: u32): nat {
    match s.m.state
    case SwapPending => 1
    case Boot => if s.m.active != remote then 1 else 0
    case Revert => if CheckAhead(s) then 1 else 0
    case _ => 0
  }

  // The swap a run may make on its own: none when the running version is published.
  function Budget(version: u32, remote: u32): nat { if version == remote then 0 else 1 }

  ghost predicate Inv(s: System, version: u32, remote: u32) {
    && s.m.CanReset() && s.m.state != DfuDetach
    && (s.m.state == SwapPending ==> s.m.staged == Some(remote))
    && (s.m.state == SwapTesting ==> s.m.active == remote)
    && (s.phase == HardwareTest || s.phase.NetworkWait? || s.phase == Confirming || s.phase == Hung ==> s.m.state == SwapTesting)
    && (s.phase == Fetching || s.phase == Verified ==> s.m.active != remote && s.m.state in {Boot, Revert})
    && (s.phase == Verified ==> s.m.staged == Some(remote))
    && (s.m.state == SwapPending <==> s.phase == Resetting)
    && (s.m.state == Revert ==> s.rollbacks > 0)
    && s.swaps + SwapsAhead(s, remote) <= Budget(version, remote) + s.requests + s.misreads
    && s.rollbacks + (if s.m.state == SwapTesting then 1 else 0) <= s.swaps
  }

  lemma InvReboot(s: System, version: u32, remote: u32)
    requires Inv(s, version, remote)
    ensures Inv(Reboot(s), version, remote)
  {
  }

  // The steps that operate on the state machine.
  lemma InvPerform(s: System, e: Event, version: u32, remote: u32)
    requires e.ImageVerified? || e.MarkDone? || e.ConfirmDone?
    requires Inv(s, version, remote) && Next(s, e, remote).Some?
    ensures Inv(Next(s, e, remote).value, version, remote)
  {
    hide Reboot;
  }

  // The steps that leave it alone.
  lemma InvMove(s: System, e: Event, version: u32, remote: u32)
    requires e != Crash && e != SystemReset && !(e.ImageVerified? || e.MarkDone? || e.ConfirmDone?)
    requires Inv(s, version, remote) && Next(s, e, remote).Some?
    ensures Inv(Next(s, e, remote).value, version, remote)
  {
    hide Reboot, Perform, Apply;
  }

  lemma InvStep(s: System, e: Event, version: u32, remote: u32)
    requires Inv(s, version, remote) && Next(s, e, remote).Some?
    ensures Inv(Next(s, e, remote).value, version, remote)
  {
    hide Inv, Reboot, Perform;
    if e == Crash || e == SystemReset {
      InvReboot(s, version, remote);
    } else if e.ImageVerified? || e.MarkDone? || e.ConfirmDone? {
      InvPerform(s, e, version, remote);
    } else {
      InvMove(s, e, version, remote);
    }
  }

  lemma {:induction false} InvRun(version: u32, events: seq<Event>, remote: u32)
    requires SystemAfter(version, events, remote).Some?
    ensures Inv(SystemAfter(version, events, remote).value, version, remote)
  {
    hide Inv, Next;
    if events == [] {
      InvStart(version, remote);
    } else {
      InvRun(version, events[..|events| - 1], remote);
      InvStep(SystemAfter(version, events[..|events| - 1], remote).value, events[|events| - 1], version, remote);
    }
  }

  lemma InvStart(version: u32, remote: u32)
    ensures Inv(Start(version), version, remote)
  {
  }

  // The published version runs and is confirmed.
  ghost predicate Published(s: System, version: u32, remote: u32) {
    Inv(s, version, remote) && s.m.state == Boot && s.m.active == remote
  }

  lemma PublishedStep(s: System, e: Event, version: u32, remote: u32)
    requires Published(s, version, remote) && Next(s, e, remote).Some?
    ensures Published(Next(s, e, remote).value, version, remote) && Next(s, e, remote).value.swaps == s.swaps
  {
    InvStep(s, e, version, remote);
  }

  // Once the published version is confirmed, no further swap happens, whatever is
  // requested, misread or interrupted.
  lemma {:induction false} PublishedIsFinal(version: u32, events: seq<Event>, more: seq<Event>, remote: u32)
    requires SystemAfter(version, events, remote).Some? && SystemAfter(version, events + more, remote).Some?
    requires SystemAfter(version, events, remote).value.m.state == Boot
    requires SystemAfter(version, events, remote).value.m.active == remote
    ensures var s, t := SystemAfter(version, events, remote).value, SystemAfter(version, events + more, remote).value;
            t.m.state == Boot && t.m.active == remote && t.swaps == s.swaps
    decreases |more|
  {
    hide Inv, Next;
    if more == [] {
      assert events + more == events;
    } else {
      var prefix, e := more[..|more| - 1], more[|more| - 1];
      assert (events + more)[..|events + more| - 1] == events + prefix;
      PublishedIsFinal(version, events, prefix, remote);
      InvRun(version, events + prefix, remote);
      PublishedStep(SystemAfter(version, events + prefix, remote).value, e, version, remote);
    }
  }

  // The swaps a run may make: none when the version it starts with is published.
  function MostSwaps(version: u32, remote: u32, requests: nat, misreads: nat): nat {
    if version == remote then 0 else 1 + requests + misreads
  }

  // Whatever crashes and failures a run contains, it swaps at most once more than
  // there were manual requests and unreadable boot states after a revert, never
  // when it started with the published version, and rolls back at most once per
  // swap.
  lemma SwapsBounded(version: u32, events: seq<Event>, remote: u32)
    requires SystemAfter(version, events, remote).Some?
    ensures var s := SystemAfter(version, events, remote).value;
            s.rollbacks <= s.swaps <= MostSwaps(version, remote, s.requests, s.misreads)
  {
    InvRun(version, events, remote);
    if version == remote {
      hide SystemAfter;
      StartsBoot(version, remote);
      assert [] + events == events;
      PublishedIsFinal(version, [], events, remote);
    }
  }

  // A request, or a boot that fails to read its state.
  predicate Disturbs(e: Event) { e == Request || e == ReadState(false) }

  // A reverted image with no check ahead stays: it makes no check, and its version
  // never changes, until the next request or unreadable boot state. What was
  // requested or misread before does not matter.
  lemma {:induction false} RevertIsFinal(version: u32, events: seq<Event>, more: seq<Event>, remote: u32)
    requires SystemAfter(version, events, remote).Some? && SystemAfter(version, events + more, remote).Some?
    requires var s := SystemAfter(version, events, remote).value; s.m.state == Revert && !CheckAhead(s)
    requires forall k :: 0 <= k < |more| ==> !Disturbs(more[k])
    ensures var s, t := SystemAfter(version, events, remote).value, SystemAfter(version, events + more, remote).value;
            t.m.state == Revert && t.m.active == s.m.active && t.swaps == s.swaps && !CheckAhead(t)
    decreases |more|
  {
    hide Inv, Next, CheckAhead;
    if more == [] {
      assert events + more == events;
    } else {
      var prefix, e := more[..|more| - 1], more[|more| - 1];
      assert (events + more)[..|events + more| - 1] == events + prefix;
      assert forall k :: 0 <= k < |prefix| ==> prefix[k] == more[k];
      RevertIsFinal(version, events, prefix, remote);
      InvRun(version, events + prefix, remote);
      QuietRevert(SystemAfter(version, events + prefix, remote).value, e, version, remote);
    }
  }

  lemma QuietRevert(s: System, e: Event, version: u32, remote: u32)
    requires Inv(s, version, remote) && s.m.state == Revert && !CheckAhead(s)
    requires Next(s, e, remote).Some? && !Disturbs(e)
    ensures var t := Next(s, e, remote).value;
            t.m.state == Revert && t.m.active == s.m.active && t.swaps == s.swaps && !CheckAhead(t)
  {
  }

  // In a run that was never disturbed, a reverted image has no check ahead.
  lemma UndisturbedRevert(version: u32, events: seq<Event>, remote: u32)
    requires SystemAfter(version, events, remote).Some?
    requires var s := SystemAfter(version, events, remote).value; s.m.state == Revert && s.requests == 0 && s.misreads == 0
    ensures !CheckAhead(SystemAfter(version, events, remote).value)
  {
    InvRun(version, events, remote);
  }

  lemma Extend(version: u32, events: seq<Event>, s: System, e: Event, remote: u32) returns (longer: seq<Event>, t: System)
    requires SystemAfter(version, events, remote) == Some(s) && s.m.CanReset() && Next(s, e, remote).Some?
    ensures longer == events + [e] && SystemAfter(version, longer, remote) == Some(t) == Next(s, e, remote)
  {
    longer, t := events + [e], Next(s, e, remote).value;
    assert longer[..|longer| - 1] == events;
  }

  // A boot that fails to read its state, up to the check that finds another version.
  lemma UnreadBootFetches(version: u32, events: seq<Event>, s: System, remote: u32) returns (longer: seq<Event>, t: System)
    requires SystemAfter(version, events, remote) == Some(s) && s.m.CanReset()
    requires s.phase == Starting && s.m.active != remote
    ensures SystemAfter(version, longer, remote) == Some(t)
    ensures t == s.(phase := Fetching, misreads := if s.m.state == Revert then s.misreads + 1 else s.misreads)
  {
    hide SystemAfter;
    longer, t := Extend(version, events, s, ReadState(false), remote);
    longer, t := Extend(version, longer, t, TaskStarts, remote);
    longer, t := Extend(version, longer, t, VersionFetched, remote);
  }

  // From an image being fetched to its swap.
  lemma FetchSwaps(version: u32, events: seq<Event>, s: System, size: u32, remote: u32) returns (longer: seq<Event>, t: System)
    requires SystemAfter(version, events, remote) == Some(s) && s.m.CanReset()
    requires s.phase == Fetching && s.m.state in {Boot, Revert} && size <= ACTIVE_BYTES
    ensures longer == events + [ImageVerified(size), MarkDone(true), SystemReset]
    ensures SystemAfter(version, longer, remote) == Some(t) && t.m.CanReset()
    ensures t.swaps == s.swaps + 1 && t.requests == s.requests && t.misreads == s.misreads && t.phase == Starting
    ensures t.m == Machine(SwapTesting, remote, None, Some(s.m.active))
  {
    hide SystemAfter;
    longer, t := Extend(version, events, s, ImageVerified(size), remote);
    longer, t := Extend(version, longer, t, MarkDone(true), remote);
    longer, t := Extend(version, longer, t, SystemReset, remote);
  }

  // A reverted image that is asked to check, up to the swap.
  lemma RequestFetches(version: u32, events: seq<Event>, s: System, remote: u32) returns (longer: seq<Event>, t: System)
    requires SystemAfter(version, events, remote) == Some(s) && s.m.CanReset()
    requires s.phase == Starting && s.m.state == Revert && s.m.active != remote
    ensures SystemAfter(version, longer, remote) == Some(t)
    ensures t == s.(phase := Fetching, requested := false, requests := s.requests + 1)
  {
    hide SystemAfter;
    longer, t := Extend(version, events, s, ReadState(true), remote);
    longer, t := Extend(version, longer, t, TaskStarts, remote);
    longer, t := Extend(version, longer, t, Request, remote);
    longer, t := Extend(version, longer, t, TakeRequest, remote);
    longer, t := Extend(version, longer, t, VersionFetched, remote);
  }

  // With an image that crashes on every trial, each request and each boot that
  // does not read its state swaps it in once more behind a rollback: the bound
  // above is reached for every pair of counts.
  lemma {:induction false} SwapBoundReached(requests: nat, misreads: nat, version: u32, remote: u32)
    returns (events: seq<Event>, s: System)
    requires version != remote
    ensures SystemAfter(version, events, remote) == Some(s) && s.m.CanReset() && s.phase == Starting
    ensures s.requests == requests && s.misreads == misreads
    ensures s.swaps == MostSwaps(version, remote, requests, misreads)
    ensures s.m.state == SwapTesting && s.m.previous == Some(version)
    decreases requests + misreads
  {
    hide SystemAfter;
    if requests == 0 && misreads == 0 {
      StartsBoot(version, remote);
      events, s := UnreadBootFetches(version, [], Start(version), remote);
    } else if misreads > 0 {
      events, s := SwapBoundReached(requests, misreads - 1, version, remote);
      events, s := Extend(version, events, s, Crash, remote);
      events, s := UnreadBootFetches(version, events, s, remote);
    } else {
      events, s := SwapBoundReached(requests - 1, misreads, version, remote);
      events, s := Extend(version, events, s, Crash, remote);
      events, s := RequestFetches(version, events, s, remote);
    }
    events, s := FetchSwaps(version, events, s, 0, remote);
  }

  // So a device that never reads its boot state swaps without end though nobody
  // asked for a check.
  lemma MisreadsLoop(n: nat, version: u32, remote: u32) returns (events: seq<Event>, s: System)
    requires version != remote
    ensures SystemAfter(version, events, remote) == Some(s) && s.requests == 0 && s.misreads == n && s.swaps == n + 1
  {
    events, s := SwapBoundReached(0, n, version, remote);
  }

  lemma StartsBoot(version: u32, remote: u32)
    ensures SystemAfter(version, [], remote) == Some(Start(version))
  {
  }

  // ----- The self-test -----

  function CheckBehind(e: Event, before: Option<(bool, bool)>): Option<(bool, bool)> {
    match e
    case Crash => None
    case SystemReset => None
    case HardwareChecked(relayOk, reedOk) => Some((relayOk, reedOk))
    case _ => before
  }

  // The last hardware check since the last reset.
  function LastCheck(events: seq<Event>): Option<(bool, bool)> {
    if events == [] then None else CheckBehind(events[|events| - 1], LastCheck(events[..|events| - 1]))
  }

  // Where the hardware has passed, the last check says so.
  predicate Passed(phase: Phase, check: Option<(bool, bool)>) {
    (phase.NetworkWait? ==> phase.signals.relayOk && phase.signals.reedOk) &&
    (phase.NetworkWait? || phase == Confirming ==> check == Some((true, true)))
  }

  lemma PassedStep(s: System, e: Event, check: Option<(bool, bool)>, remote: u32)
    requires s.m.CanReset() && Next(s, e, remote).Some? && Passed(s.phase, check)
    ensures Passed(Next(s, e, remote).value.phase, CheckBehind(e, check))
  {
  }

  // The network is waited for, and an image about to be confirmed, only behind a
  // hardware check that passed.
  lemma {:induction false} ChecksPassed(version: u32, events: seq<Event>, remote: u32)
    requires SystemAfter(version, events, remote).Some?
    ensures Passed(SystemAfter(version, events, remote).value.phase, LastCheck(events))
  {
    if events == [] {
    } else {
      var before, e := events[..|events| - 1], events[|events| - 1];
      hide Next, Passed;
      ChecksPassed(version, before, remote);
      PassedStep(SystemAfter(version, before, remote).value, e, LastCheck(before), remote);
    }
  }

  // In every run an image is confirmed only when, since the last reset, both
  // hardware checks of it passed.
  lemma ConfirmedHealthy(version: u32, events: seq<Event>, e: Event, remote: u32)
    requires SystemAfter(version, events, remote).Some?
    requires SystemAfter(version, events + [e], remote).Some?
    requires var s, t := SystemAfter(version, events, remote).value, SystemAfter(version, events + [e], remote).value;
             t.ops == s.ops + [Confirm]
    ensures e == ConfirmDone(true) && LastCheck(events) == Some((true, true))
    ensures SystemAfter(version, events, remote).value.m.state == SwapTesting
  {
    assert (events + [e])[..|events|] == events;
    ChecksPassed(version, events, remote);
    InvRun(version, events, remote);
    var s := SystemAfter(version, events, remote).value;
    LastOp(s, Next(s, e, remote).value);
    hide SystemAfter, LastCheck, Inv;
    assert s.m.state == SwapTesting by { TrialPhase(s, version, remote); }
  }

  lemma TrialPhase(s: System, version: u32, remote: u32)
    requires Inv(s, version, remote) && s.phase == Confirming
    ensures s.m.state == SwapTesting
  {
  }

  lemma LastOp(s: System, t: System)
    ensures t.ops == s.ops + [Confirm] ==> |t.ops| == |s.ops| + 1 && t.ops[|s.ops|] == Confirm
  {
  }

  // A trial image whose hardware is well is confirmed, with network or without.
  lemma HealthyConfirms(version: u32, events: seq<Event>, s: System, up: bool, remote: u32) returns (t: System)
    requires SystemAfter(version, events, remote) == Some(s) && s.m.CanReset()
    requires s.phase == Starting && s.m.state == SwapTesting
    ensures var steps := [ReadState(true), HardwareChecked(true, true), NetworkChecked(up), ConfirmDone(true)];
            SystemAfter(version, events + steps, remote) == Some(t)
    ensures t.m == Machine(Boot, s.m.active, None, None) && t.ops == s.ops + [Confirm] && t.phase == Spawning(true)
  {
    hide SystemAfter;
    var longer;
    longer, t := Extend(version, events, s, ReadState(true), remote);
    longer, t := Extend(version, longer, t, HardwareChecked(true, true), remote);
    longer, t := Extend(version, longer, t, NetworkChecked(up), remote);
    longer, t := Extend(version, longer, t, ConfirmDone(true), remote);
    assert longer == events + [ReadState(true), HardwareChecked(true, true), NetworkChecked(up), ConfirmDone(true)];
  }

  // Any other answer of the hardware leaves it hung, until a reset rolls it back.
  lemma UnhealthyRollsBack(version: u32, events: seq<Event>, s: System, relayOk: bool, reedOk: bool, remote: u32)
    returns (hung: System, t: System)
    requires SystemAfter(version, events, remote) == Some(s) && s.m.CanReset()
    requires s.phase == Starting && s.m.state == SwapTesting && !(relayOk && reedOk)
    ensures var steps := [ReadState(true), HardwareChecked(relayOk, reedOk)];
            SystemAfter(version, events + steps, remote) == Some(hung) &&
            SystemAfter(version, events + steps + [Crash], remote) == Some(t)
    ensures hung.phase == Hung && hung.m == s.m
    ensures t.phase == Starting && t.m.state == Revert && s.m.previous == Some(t.m.active)
  {
    hide SystemAfter;
    var longer;
    longer, hung := Extend(version, events, s, ReadState(true), remote);
    longer, hung := Extend(version, longer, hung, HardwareChecked(relayOk, reedOk), remote);
    assert longer == events + [ReadState(true), HardwareChecked(relayOk, reedOk)];
    longer, t := Extend(version, longer, hung, Crash, remote);
  }

  // A hung image does nothing but wait for the reset.
  lemma HungStays(s: System, e: Event, remote: u32)
    requires s.m.CanReset() && s.phase == Hung && Next(s, e, remote).Some?
    ensures var t := Next(s, e, remote).value;
            if e == Crash then t == Reboot(s) else e == Request && t.phase == Hung && t.m == s.m && t.ops == s.ops
  {
  }

  // ----- Checks and installations -----

  // After a boot the published version is checked for, unless the image was reverted.
  lemma BootChecks(version: u32, events: seq<Event>, s: System, ok: bool, remote: u32) returns (t: System)
    requires SystemAfter(version, events, remote) == Some(s) && s.m.CanReset()
    requires s.phase == Starting && (ok ==> s.m.state != SwapTesting)
    ensures SystemAfter(version, events + [ReadState(ok), TaskStarts], remote) == Some(t)
    ensures t.phase == (if ok && s.m.state == Revert then Idle else Checking) && t.m == s.m
  {
    hide SystemAfter;
    var longer;
    longer, t := Extend(version, events, s, ReadState(ok), remote);
    longer, t := Extend(version, longer, t, TaskStarts, remote);
    assert longer == events + [ReadState(ok), TaskStarts];
  }

  // A check fetches an image exactly for another version, and a request starts
  // exactly one check.
  lemma CheckFetches(s: System, remote: u32)
    requires s.m.CanReset()
    ensures s.phase == Checking ==>
              Next(s, VersionFetched, remote) == Some(s.(phase := if s.m.active == remote then Idle else Fetching))
    ensures s.phase == Idle ==>
              Next(s, TakeRequest, remote) == if s.requested then Some(s.(phase := Checking, requested := false)) else None
    ensures Next(s, Request, remote) == Some(s.(requested := true, requests := s.requests + 1))
  {
  }

  // The way of a good update: another version is published, its image fits and is
  // verified, marked, swapped in, found well and confirmed, with network or without.
  lemma UpdateInstalls(version: u32, events: seq<Event>, s: System, size: u32, up: bool, remote: u32) returns (t: System)
    requires SystemAfter(version, events, remote) == Some(s) && s.m.CanReset()
    requires s.phase == Starting && s.m.state == Boot && s.m.active != remote && size <= ACTIVE_BYTES
    ensures var steps := [ReadState(true), TaskStarts, VersionFetched, ImageVerified(size), MarkDone(true), SystemReset] +
                         [ReadState(true), HardwareChecked(true, true), NetworkChecked(up), ConfirmDone(true)];
            SystemAfter(version, events + steps, remote) == Some(t)
    ensures t.m == Machine(Boot, remote, None, None)
  {
    hide SystemAfter, Next, Reboot;
    var swap := [ReadState(true), TaskStarts, VersionFetched, ImageVerified(size), MarkDone(true), SystemReset];
    t := SwapsIn(version, events, s, size, remote);
    t := HealthyConfirms(version, events + swap, t, up, remote);
    var trial := [ReadState(true), HardwareChecked(true, true), NetworkChecked(up), ConfirmDone(true)];
    assert events + swap + trial == events + (swap + trial);
  }

  lemma SwapsIn(version: u32, events: seq<Event>, s: System, size: u32, remote: u32) returns (t: System)
    requires SystemAfter(version, events, remote) == Some(s) && s.m.CanReset()
    requires s.phase == Starting && s.m.state == Boot && s.m.active != remote && size <= ACTIVE_BYTES
    ensures var steps := [ReadState(true), TaskStarts, VersionFetched, ImageVerified(size), MarkDone(true), SystemReset];
            SystemAfter(version, events + steps, remote) == Some(t)
    ensures t.phase == Starting && t.m == Machine(SwapTesting, remote, None, Some(s.m.active))
  {
    hide SystemAfter;
    var longer;
    longer, t := Extend(version, events, s, ReadState(true), remote);
    longer, t := Extend(version, longer, t, TaskStarts, remote);
    longer, t := Extend(version, longer, t, VersionFetched, remote);
    longer, t := FetchSwaps(version, longer, t, size, remote);
    assert longer == events + [ReadState(true), TaskStarts, VersionFetched, ImageVerified(size), MarkDone(true), SystemReset];
  }

  // ----- The composed system is a run of the state machine -----

  lemma {:induction false} OpsAreRun(version: u32, events: seq<Event>, remote: u32)
    requires SystemAfter(version, events, remote).Some?
    ensures var s := SystemAfter(version, events, remote).value;
            s.m == After(version, s.ops) && Detach !in s.ops
  {
    hide Apply, Run, Next;
    if events == [] {
      RunNothing(version);
    } else {
      var before := SystemAfter(version, events[..|events| - 1], remote).value;
      OpsAreRun(version, events[..|events| - 1], remote);
      var s := SystemAfter(version, events, remote).value;
      var op := NextOp(before, events[|events| - 1], remote);
      RunSnoc(version, before.ops, op);
    }
  }

  // A step performs at most one operation, and never a detach.
  lemma NextOp(s: System, e: Event, remote: u32) returns (op: Op)
    requires s.m.CanReset() && Next(s, e, remote).Some?
    ensures var t := Next(s, e, remote).value;
            op != Detach && ((t.ops == s.ops && t.m == s.m) || (t.ops == s.ops + [op] && t.m == Apply(s.m, op)))
  {
    op := match e case ConfirmDone(_) => Confirm case ImageVerified(size) => Stage(remote, size) case MarkDone(_) => Mark case _ => Reset;
  }

  lemma RunNothing(version: u32)
    ensures After(version, []) == NewMachine(version)
  {
  }

  lemma RunSnoc(version: u32, ops: seq<Op>, op: Op)
    ensures After(version, ops + [op]) == Apply(After(version, ops), op)
  {
    assert (ops + [op])[..|ops + [op]| - 1] == ops;
  }

  // Pull the plug twice at any moment of any run, and the version confirmed last
  // is the one that runs.
  lemma TwoCrashesRecover(version: u32, events: seq<Event>, remote: u32)
    requires SystemAfter(version, events, remote).Some?
    ensures var s := SystemAfter(version, events, remote).value;
            Reboot(Reboot(s)).m.active == LastConfirmed(version, s.ops)
  {
    var s := SystemAfter(version, events, remote).value;
    OpsAreRun(version, events, remote);
    TwoResetsRecover(version, s.ops);
    RunTwo(s.m, Reset, Reset);
  }
}
