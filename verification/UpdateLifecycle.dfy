// The update state machine, and every run of its operations.

module UpdateLifecycle {
  import opened Prelude
  import opened FlashLayout

  datatype UpdateState = Boot | SwapPending | SwapTesting | Revert | DfuDetach

  datatype BootAction = BootActive | SwappedAndBoot | RolledBackAndBoot | EnterUsbBoot

  datatype LifecycleError = TooLarge | NothingStaged | Unconfirmed | PendingSwap | Detached

  // The machine's fields as a value, and its operations.
  datatype Machine = Machine(state: UpdateState, active: u32, staged: Option<u32>, previous: Option<u32>) {
    // The versions a reset is going to take are there.
    predicate CanReset() {
      (state == SwapPending ==> staged.Some?) && (state == SwapTesting ==> previous.Some?)
    }

    function Staged(version: u32, size: u32): Machine {
      if CanFitInActive(size) then this.(staged := Some(version)) else this
    }

    predicate MayMark() { staged.Some? && state != SwapTesting }

    function Marked(): Machine { if MayMark() then this.(state := SwapPending) else this }

    predicate MayConfirm() { state == SwapTesting || state == Boot || state == Revert }

    function Confirmed(): Machine {
      if MayConfirm() then this.(state := Boot, previous := None, staged := None) else this
    }

    function Action(): BootAction {
      match state
      case Boot => BootActive
      case SwapPending => SwappedAndBoot
      case SwapTesting => RolledBackAndBoot
      case Revert => BootActive
      case DfuDetach => EnterUsbBoot
    }

    function Rebooted(): Machine
      requires CanReset()
    {
      match state
      case SwapPending => Machine(SwapTesting, staged.value, None, Some(active))
      case SwapTesting => Machine(Revert, previous.value, Some(active), None)
      case _ => this
    }
  }

  function NewMachine(version: u32): Machine { Machine(Boot, version, None, None) }

  class UpdateStateMachine {
    var state: UpdateState
    var activeVersion: u32
    var stagedVersion: Option<u32>
    var previousVersion: Option<u32>

    function Model(): Machine
      reads this
    {
      Machine(state, activeVersion, stagedVersion, previousVersion)
    }

    // Neither `expect` of `OnReset` can fail.
    ghost predicate Valid()
      reads this
    {
      Model().CanReset()
    }

    constructor (initialVersion: u32)
      ensures Valid() && Model() == NewMachine(initialVersion)
    {
      state, activeVersion := Boot, initialVersion;
      stagedVersion, previousVersion := None, None;
    }

    method StageFirmware(version: u32, size: u32) returns (r: Result<(), LifecycleError>)
      requires Valid()
      modifies this
      ensures Valid() && Model() == old(Model()).Staged(version, size)
      ensures r == if size <= ACTIVE_BYTES then Ok(()) else Err(TooLarge)
      ensures stagedVersion == if r.Ok? then Some(version) else old(stagedVersion)
      ensures unchanged(`state, `activeVersion, `previousVersion)
    {
      if !CanFitInActive(size) {
        return Err(TooLarge);
      }
      stagedVersion := Some(version);
      r := Ok(());
    }

    method MarkUpdated() returns (r: Result<(), LifecycleError>)
      requires Valid()
      modifies this
      ensures Valid() && Model() == old(Model()).Marked()
      ensures r == if old(stagedVersion).None? then Err(NothingStaged)
                   else if old(state) == SwapTesting then Err(Unconfirmed) else Ok(())
      ensures state == if r.Ok? then SwapPending else old(state)
      ensures unchanged(`activeVersion, `stagedVersion, `previousVersion)
    {
      if stagedVersion.None? {
        return Err(NothingStaged);
      }
      if state == SwapTesting {
        return Err(Unconfirmed);
      }
      state := SwapPending;
      r := Ok(());
    }

    method MarkBooted() returns (r: Result<(), LifecycleError>)
      requires Valid()
      modifies this
      ensures Valid() && Model() == old(Model()).Confirmed()
      ensures r == if old(state) == SwapPending then Err(PendingSwap)
                   else if old(state) == DfuDetach then Err(Detached) else Ok(())
      ensures if r.Ok? then state == Boot && stagedVersion == previousVersion == None
              else unchanged(`state, `stagedVersion, `previousVersion)
      ensures unchanged(`activeVersion)
    {
      match state
      case SwapPending => r := Err(PendingSwap);
      case DfuDetach => r := Err(Detached);
      case _ =>
        state := Boot;
        previousVersion := None;
        stagedVersion := None;
        r := Ok(());
    }

    method MarkDfu()
      requires Valid()
      modifies this
      ensures Valid() && Model() == old(Model()).(state := DfuDetach)
    {
      state := DfuDetach;
    }

    method OnReset() returns (action: BootAction)
      requires Valid()
      modifies this
      ensures Valid() && Model() == old(Model()).Rebooted() && action == old(Model()).Action()
      ensures action == SwappedAndBoot <==> old(state) == SwapPending
      ensures action == RolledBackAndBoot <==> old(state) == SwapTesting
      ensures action == EnterUsbBoot <==> old(state) == DfuDetach
      ensures action == SwappedAndBoot ==>
                state == SwapTesting && stagedVersion == None &&
                Some(activeVersion) == old(stagedVersion) && previousVersion == Some(old(activeVersion))
      ensures action == RolledBackAndBoot ==>
                state == Revert && previousVersion == None &&
                Some(activeVersion) == old(previousVersion) && stagedVersion == Some(old(activeVersion))
      ensures action == BootActive || action == EnterUsbBoot ==> unchanged(this)
    {
      match state
      case Boot => action := BootActive;
      case SwapPending =>
        var newActive := stagedVersion.Extract();
        stagedVersion := None;
        previousVersion := Some(activeVersion);
        activeVersion := newActive;
        state := SwapTesting;
        action := SwappedAndBoot;
      case SwapTesting =>
        var rollback := previousVersion.Extract();
        previousVersion := None;
        stagedVersion := Some(activeVersion);
        activeVersion := rollback;
        state := Revert;
        action := RolledBackAndBoot;
      case Revert => action := BootActive;
      case DfuDetach => action := EnterUsbBoot;
    }
  }

  // ----- Runs -----

  datatype Op = Stage(version: u32, size: u32) | Mark | Confirm | Detach | Reset

  function Apply(m: Machine, op: Op): (r: Machine)
    requires m.CanReset()
    ensures r.CanReset()
  {
    match op
    case Stage(version, size) => m.Staged(version, size)
    case Mark => m.Marked()
    case Confirm => m.Confirmed()
    case Detach => m.(state := DfuDetach)
    case Reset => m.Rebooted()
  }

  // Every run of operations, whatever they are, is free of failed `expect`s.
  function Run(m: Machine, ops: seq<Op>): (r: Machine)
    requires m.CanReset()
    ensures r.CanReset()
  {
    if ops == [] then m else Apply(Run(m, ops[..|ops| - 1]), ops[|ops| - 1])
  }

  function After(version: u32, ops: seq<Op>): Machine { Run(NewMachine(version), ops) }

  // The version confirmed last, the initial one counting as confirmed.
  function LastConfirmed(version: u32, ops: seq<Op>): u32 {
    if ops == [] then version
    else
      var m := After(version, ops[..|ops| - 1]);
      if ops[|ops| - 1] == Confirm && m.MayConfirm() then m.active
      else LastConfirmed(version, ops[..|ops| - 1])
  }

  // Where the confirmed version is: running, or saved while another is on trial.
  predicate Keeps(m: Machine, confirmed: u32) {
    if m.state == SwapTesting then m.previous == Some(confirmed) else m.active == confirmed
  }

  // A USB detach is requested only while no other version than the confirmed one
  // is on trial.
  predicate DetachesSafely(version: u32, ops: seq<Op>) {
    forall k :: 0 <= k < |ops| && ops[k] == Detach ==>
      After(version, ops[..k]).state != SwapTesting || After(version, ops[..k]).active == LastConfirmed(version, ops[..k])
  }

  lemma DetachesSafelySnoc(version: u32, ops: seq<Op>)
    requires ops != []
    ensures var before := ops[..|ops| - 1];
            DetachesSafely(version, ops) <==>
            DetachesSafely(version, before) &&
            (ops[|ops| - 1] == Detach ==>
               After(version, before).state != SwapTesting || After(version, before).active == LastConfirmed(version, before))
  {
    hide After, LastConfirmed;
    var before := ops[..|ops| - 1];
    assert forall k :: 0 <= k < |before| ==> ops[..k] == before[..k] && ops[k] == before[k];
    if DetachesSafely(version, before) && ops[|ops| - 1] != Detach {
      assert forall k :: 0 <= k < |ops| && ops[k] == Detach ==> k < |before|;
    }
  }

  // In every run that detaches safely, the last confirmed version is the active
  // one, or the saved one while another image is on trial.
  lemma {:induction false} SafeRollback(version: u32, ops: seq<Op>)
    requires DetachesSafely(version, ops)
    ensures Keeps(After(version, ops), LastConfirmed(version, ops))
  {
    if ops == [] {
    } else {
      hide DetachesSafely;
      DetachesSafelySnoc(version, ops);
      SafeRollback(version, ops[..|ops| - 1]);
    }
  }

  // The confirmed version is kept throughout a run.
  predicate KeepsThroughout(version: u32, ops: seq<Op>) {
    forall k :: 0 <= k <= |ops| ==> Keeps(After(version, ops[..k]), LastConfirmed(version, ops[..k]))
  }

  // A run keeps the confirmed version at every moment exactly when it detaches
  // safely.
  lemma KeepsThroughoutIff(version: u32, ops: seq<Op>)
    ensures KeepsThroughout(version, ops) <==> DetachesSafely(version, ops)
  {
    if DetachesSafely(version, ops) {
      forall k | 0 <= k <= |ops| ensures Keeps(After(version, ops[..k]), LastConfirmed(version, ops[..k])) {
        PrefixDetachesSafely(version, ops, k);
        SafeRollback(version, ops[..k]);
      }
    }
    if KeepsThroughout(version, ops) {
      forall k | 0 <= k < |ops| && ops[k] == Detach
        ensures After(version, ops[..k]).state != SwapTesting || After(version, ops[..k]).active == LastConfirmed(version, ops[..k])
      {
        assert ops[..k + 1][..k] == ops[..k];
        assert Keeps(After(version, ops[..k + 1]), LastConfirmed(version, ops[..k + 1]));
      }
    }
  }

  lemma PrefixDetachesSafely(version: u32, ops: seq<Op>, n: nat)
    requires n <= |ops| && DetachesSafely(version, ops)
    ensures DetachesSafely(version, ops[..n])
  {
    hide After, LastConfirmed;
    assert forall k :: 0 <= k < n ==> ops[..n][..k] == ops[..k] && ops[..n][k] == ops[k];
  }

  lemma RunTwo(m: Machine, a: Op, b: Op)
    requires m.CanReset()
    ensures Run(m, [a, b]) == Apply(Apply(m, a), b)
  {
    assert [a, b][..1] == [a] && [a][..0] == [];
    assert Run(m, [a]) == Apply(Run(m, []), a);
  }

  // Two resets without a confirmation bring the confirmed version back exactly when
  // it is kept; so they do behind every run that detaches safely.
  lemma TwoResetsRecover(version: u32, ops: seq<Op>)
    ensures var m := Run(After(version, ops), [Reset, Reset]);
            (m.active == LastConfirmed(version, ops) <==> Keeps(After(version, ops), LastConfirmed(version, ops))) &&
            (DetachesSafely(version, ops) ==> m.active == LastConfirmed(version, ops)) &&
            m.state != SwapTesting && m.state != SwapPending
  {
    if DetachesSafely(version, ops) {
      SafeRollback(version, ops);
    }
    RunTwo(After(version, ops), Reset, Reset);
  }

  // One detach keeps what is kept exactly when no other version is on trial.
  lemma DetachKeepsIff(version: u32, ops: seq<Op>)
    requires Keeps(After(version, ops), LastConfirmed(version, ops))
    ensures var m, confirmed := After(version, ops), LastConfirmed(version, ops);
            Keeps(After(version, ops + [Detach]), LastConfirmed(version, ops + [Detach])) <==>
            m.state != SwapTesting || m.active == confirmed
  {
    assert (ops + [Detach])[..|ops|] == ops;
  }

  // What an unsafe detach costs: detach a trial that differs from the confirmed
  // version, stage any image that fits and mark it, and no reset brings the
  // confirmed version back.
  lemma DetachedTrialLosesConfirmed(version: u32, ops: seq<Op>, staged: u32, size: u32)
    requires After(version, ops).state == SwapTesting
    requires After(version, ops).active != LastConfirmed(version, ops) && CanFitInActive(size)
    ensures var lost := Run(Run(After(version, ops), [Detach, Stage(staged, size)]), [Mark, Reset]);
            !Keeps(lost, LastConfirmed(version, ops)) && lost.Rebooted().active != LastConfirmed(version, ops)
  {
    var m := After(version, ops);
    RunTwo(m, Detach, Stage(staged, size));
    RunTwo(Run(m, [Detach, Stage(staged, size)]), Mark, Reset);
  }
}
