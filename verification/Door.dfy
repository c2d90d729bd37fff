// Door timing policy: the relay interlock, the actuator loop that drives it, and
// the reed debouncer.

module Door {
  import opened Prelude

  const RELAY_PULSE_MS: nat := 600
  const RELAY_COOLDOWN_MS: nat := 2000
  const REED_DEBOUNCE_MS: nat := 50
  // Two accepted triggers are this far apart.
  const SPACING_MS: nat := RELAY_PULSE_MS + RELAY_COOLDOWN_MS

  // A reading of the monotone clock: milliseconds from a 64-bit microsecond count.
  type Millis = t: nat | t <= U64_MAX / 1000

  datatype DoorState = Open | Closed

  datatype DoorCommand = Trigger | QueryStatus

  datatype RelayAction = AssertHigh | DeassertLow

  datatype TriggerRejection = PulseActive | Cooldown(remainingMs: u32)

  // `as u32`
  function TruncateU32(n: nat): u32 { n % 0x1_0000_0000 }

  // ----- The interlock -----

  // The two deadlines of an interlock, as a value.
  datatype Deadlines = Deadlines(pulseEnd: Option<u64>, cooldownEnd: Option<u64>) {
    predicate IsPulsing(now: Millis) { pulseEnd.Some? && now < pulseEnd.value }

    predicate Cooling(now: Millis) { cooldownEnd.Some? && now < cooldownEnd.value }

    // The deadlines behind `poll`.
    function Polled(now: Millis): Deadlines
      requires pulseEnd.Some? ==> pulseEnd.value + RELAY_COOLDOWN_MS <= U64_MAX
    {
      if pulseEnd.Some? && now >= pulseEnd.value then
        Deadlines(None, Some(pulseEnd.value + RELAY_COOLDOWN_MS))
      else this
    }

    predicate Accepts(now: Millis) { !IsPulsing(now) && !Cooling(now) }

    // The deadlines behind `trigger`.
    function Triggered(now: Millis): Deadlines {
      if Accepts(now) then Deadlines(Some(now + RELAY_PULSE_MS), None) else this
    }
  }

  class RelayInterlock {
    var pulseEndMs: Option<u64>
    var cooldownEndMs: Option<u64>

    // No deadline the interlock computes from this pulse overflows.
    ghost predicate Valid()
      reads this
    {
      pulseEndMs.Some? ==> pulseEndMs.value <= U64_MAX / 1000 + RELAY_PULSE_MS
    }

    function Now(): Deadlines
      reads this
    {
      Deadlines(pulseEndMs, cooldownEndMs)
    }

    constructor ()
      ensures Valid() && Now() == Deadlines(None, None)
    {
      pulseEndMs, cooldownEndMs := None, None;
    }

    function IsPulsing(now: Millis): bool
      reads this
    {
      match pulseEndMs
      case Some(end) => now < end
      case None => false
    }

    method Trigger(now: Millis) returns (r: Result<RelayAction, TriggerRejection>)
      requires Valid()
      modifies this
      ensures Valid() && Now() == old(Now()).Triggered(now)
      ensures r.Ok? <==> old(Now()).Accepts(now)
      ensures r.Ok? ==> r.value == AssertHigh
      ensures old(Now()).IsPulsing(now) ==> r == Err(PulseActive)
      ensures !old(Now()).IsPulsing(now) && old(Now()).Cooling(now) ==>
                r == Err(Cooldown(TruncateU32(old(cooldownEndMs).value - now)))
    {
      if IsPulsing(now) {
        return Err(PulseActive);
      }
      if cooldownEndMs.Some? && now < cooldownEndMs.value {
        return Err(Cooldown(TruncateU32(cooldownEndMs.value - now)));
      }
      pulseEndMs := Some(now + RELAY_PULSE_MS);
      cooldownEndMs := None;
      r := Ok(AssertHigh);
    }

    method Poll(now: Millis) returns (a: Option<RelayAction>)
      requires Valid()
      modifies this
      ensures Valid() && Now() == old(Now()).Polled(now)
      ensures a == if old(Now()).pulseEnd.Some? && now >= old(Now()).pulseEnd.value then Some(DeassertLow) else None
    {
      match pulseEndMs
      case Some(end) =>
        if now >= end {
          pulseEndMs := None;
          cooldownEndMs := Some(end + RELAY_COOLDOWN_MS);
          return Some(DeassertLow);
        }
        a := None;
      case None => a := None;
    }
  }

  // Behind a pulse that began at `t`, the interlock alone accepts the next trigger
  // as soon as the pulse has elapsed; the cooldown holds exactly when it was polled
  // in between, and not before the pulse had elapsed.
  lemma CooldownNeedsPoll(d: Deadlines, t: Millis, p: Millis, now: Millis)
    requires d.Accepts(t) && t <= p <= now
    ensures d.Triggered(t).Accepts(now) <==> now >= t + RELAY_PULSE_MS
    ensures d.Triggered(t).Polled(p).Accepts(now) <==>
            now >= t + if p >= t + RELAY_PULSE_MS then SPACING_MS else RELAY_PULSE_MS
  {
  }

  // ----- The actuator loop -----

  // One received command: the clock when it is handled, and the clock behind the
  // pulse wait (any later reading).
  datatype Event = Event(command: DoorCommand, now: Millis, after: Millis)

  // The clock never runs backwards.
  predicate Monotone(events: seq<Event>) {
    (forall i :: 0 <= i < |events| ==> events[i].now <= events[i].after) &&
    (forall i, j :: 0 <= i < j < |events| ==> events[i].after <= events[j].now)
  }

  // The rule the loop implements: a trigger is accepted exactly when the last
  // accepted one is at least `SPACING_MS` old.
  function Accepted(events: seq<Event>): (times: seq<Millis>) {
    if events == [] then []
    else
      var before, e := Accepted(events[..|events| - 1]), events[|events| - 1];
      if e.command == Trigger && Idle(before, e.now) then before + [e.now] else before
  }

  predicate Idle(accepted: seq<Millis>, now: nat) {
    accepted == [] || now >= accepted[|accepted| - 1] + SPACING_MS
  }

  // Why and with what remaining time a trigger at `now` is turned down.
  // The remaining time is exact: one millisecond earlier is still too early.
  function Rejection(accepted: seq<Millis>, now: Millis): (r: TriggerRejection)
    requires accepted != [] && accepted[|accepted| - 1] <= now && !Idle(accepted, now)
    ensures r == PulseActive <==> now < accepted[|accepted| - 1] + RELAY_PULSE_MS
    ensures r.Cooldown? ==> 0 < r.remainingMs <= RELAY_COOLDOWN_MS
    ensures r.Cooldown? ==> Idle(accepted, now + r.remainingMs) && !Idle(accepted, now + r.remainingMs - 1)
  {
    var age := now - accepted[|accepted| - 1];
    if age < RELAY_PULSE_MS then PulseActive else Cooldown(SPACING_MS - age)
  }

  // What the deadlines are after `accepted`, when the clock was last read at `t`.
  predicate Reconciled(d: Deadlines, accepted: seq<Millis>, t: Millis) {
    if accepted == [] then d == Deadlines(None, None)
    else
      var last := accepted[|accepted| - 1];
      last <= t &&
      (d == Deadlines(Some(last + RELAY_PULSE_MS), None) ||
       (last + RELAY_PULSE_MS <= t && d == Deadlines(None, Some(last + SPACING_MS))))
  }

  class Actuator {
    var relay: bool
    const interlock: RelayInterlock

    ghost predicate Valid()
      reads this, interlock
    {
      interlock.Valid() && !relay
    }

    constructor ()
      ensures Valid() && fresh(interlock) && interlock.Now() == Deadlines(None, None)
    {
      interlock := new RelayInterlock();
      relay := false;
    }

    method Apply(action: RelayAction)
      modifies this`relay
      ensures relay == (action == AssertHigh)
    {
      relay := action == AssertHigh;
    }

    // One turn of the loop. `pulsed` says whether the relay was driven high; it is
    // low again when the turn ends.
    method Handle(e: Event, ghost accepted: seq<Millis>, ghost t: Millis)
      returns (pulsed: bool, rejection: Option<TriggerRejection>)
      requires Valid() && t <= e.now <= e.after && Reconciled(interlock.Now(), accepted, t)
      modifies this`relay, interlock
      ensures Valid()
      ensures pulsed <==> e.command == Trigger && Idle(accepted, e.now)
      ensures rejection == if e.command == Trigger && !Idle(accepted, e.now) then Some(Rejection(accepted, e.now)) else None
      ensures Reconciled(interlock.Now(), if pulsed then accepted + [e.now] else accepted, e.after)
    {
      pulsed, rejection := false, None;
      match e.command
      case Trigger =>
        var action := interlock.Poll(e.now);
        if action.Some? {
          Apply(action.value);
        }
        var result := interlock.Trigger(e.now);
        match result {
          case Ok(assertion) =>
            Apply(assertion);
            pulsed := relay;
            Apply(DeassertLow);
            var _ := interlock.Poll(e.after);
          case Err(reason) =>
            rejection := Some(reason);
        }
      case QueryStatus =>
    }
  }

  // The loop over any command sequence pulses exactly at the accepted times.
  method Actuate(events: seq<Event>) returns (pulses: seq<Millis>)
    requires Monotone(events)
    ensures pulses == Accepted(events)
  {
    var actuator := new Actuator();
    pulses := [];
    ghost var t: Millis := 0;
    for n := 0 to |events|
      invariant actuator.Valid() && fresh(actuator) && fresh(actuator.interlock)
      invariant Reconciled(actuator.interlock.Now(), pulses, t)
      invariant n < |events| ==> t <= events[n].now
      invariant pulses == Accepted(events[..n])
    {
      var pulsed, _ := actuator.Handle(events[n], pulses, t);
      if pulsed {
        pulses := pulses + [events[n].now];
      }
      t := events[n].after;
      assert events[..n + 1][..n] == events[..n];
    }
    assert events[..|events|] == events;
  }

  // Accepted triggers are at least 2600 ms apart, the time between any two of
  // them growing with their distance in the list.
  lemma {:induction false} Spacing(events: seq<Event>, i: nat, j: nat)
    requires i <= j < |Accepted(events)|
    ensures Accepted(events)[j] >= Accepted(events)[i] + (j - i) * 2600
  {
    var before := Accepted(events[..|events| - 1]);
    if j < |before| {
      Spacing(events[..|events| - 1], i, j);
    } else if i < j {
      Spacing(events[..|events| - 1], i, j - 1);
    }
  }

  // One more command is accepted exactly when it is a trigger at least 2600 ms behind
  // every accepted one; so a first trigger always is.
  lemma AcceptedNext(events: seq<Event>, e: Event)
    ensures Accepted(events + [e]) ==
            if e.command == Trigger && forall k :: 0 <= k < |Accepted(events)| ==> e.now >= Accepted(events)[k] as int + 2600
            then Accepted(events) + [e.now] else Accepted(events)
  {
    assert (events + [e])[..|events|] == events;
    var times := Accepted(events);
    forall k | 0 <= k < |times| ensures times[k] <= times[|times| - 1] {
      Spacing(events, k, |times| - 1);
    }
  }

  // How many of `times` lie in the window from `lo` to `hi`.
  function CountIn(times: seq<Millis>, lo: int, hi: int): nat {
    if times == [] then 0
    else
      var t := times[|times| - 1];
      CountIn(times[..|times| - 1], lo, hi) + if lo <= t <= hi then 1 else 0
  }

  lemma {:induction false} CountUpTo(times: seq<Millis>, lo: int, hi: int, top: int)
    requires forall k :: 0 <= k < |times| ==> times[k] <= top
    requires top <= hi
    ensures CountIn(times, lo, hi) == CountIn(times, lo, top)
    ensures top < lo ==> CountIn(times, lo, hi) == 0
  {
    if times == [] {
    } else {
      CountUpTo(times[..|times| - 1], lo, hi, top);
    }
  }

  lemma {:induction false} SpacedCount(times: seq<Millis>, lo: int, hi: int)
    requires forall i, j :: 0 <= i < j < |times| ==> times[j] >= times[i] + SPACING_MS
    requires lo <= hi
    ensures CountIn(times, lo, hi) <= (hi - lo) / SPACING_MS + 1
  {
    if times == [] {
    } else {
      var before, t := times[..|times| - 1], times[|times| - 1];
      if lo <= t <= hi {
        var top := t - SPACING_MS;
        CountUpTo(before, lo, hi, top);
        if top >= lo {
          SpacedCount(before, lo, top);
        }
      } else {
        SpacedCount(before, lo, hi);
      }
    }
  }

  // Any window of `w` ms holds at most w / 2600 + 1 pulses, whatever the commands.
  lemma WindowBound(events: seq<Event>, start: Millis, w: nat)
    ensures CountIn(Accepted(events), start, start + w) <= w / 2600 + 1
  {
    forall i, j | 0 <= i < j < |Accepted(events)|
      ensures Accepted(events)[j] >= Accepted(events)[i] + SPACING_MS
    {
      Spacing(events, i, j);
    }
    SpacedCount(Accepted(events), start, start + w);
  }

  // ----- The reed debouncer -----

  datatype Sample = Sample(closed: bool, at: u64) {
    function Level(): DoorState { if closed then Closed else Open }
  }

  // The samples from `j` to the end are the longest run that disagrees with `c`.
  predicate MaximalRun(h: seq<Sample>, c: DoorState, j: nat) {
    j <= |h| && (forall k :: j <= k < |h| ==> h[k].Level() != c) && (j > 0 ==> h[j - 1].Level() == c)
  }

  function RunStart(h: seq<Sample>, c: DoorState): (j: nat)
    ensures MaximalRun(h, c, j)
  {
    if h == [] || h[|h| - 1].Level() == c then |h| else RunStart(h[..|h| - 1], c)
  }

  // The history up to its last sample commits that sample's level: the run of
  // samples that disagree with the state committed before spans 50 ms.
  predicate Commits(initial: DoorState, h: seq<Sample>)
    requires h != []
    decreases |h|, 0
  {
    var c := Committed(initial, h[..|h| - 1]);
    var j := RunStart(h, c);
    j < |h| && h[|h| - 1].at - h[j].at >= REED_DEBOUNCE_MS
  }

  function Committed(initial: DoorState, h: seq<Sample>): DoorState
    decreases |h|, 1
  {
    if h == [] then initial
    else if Commits(initial, h) then h[|h| - 1].Level()
    else Committed(initial, h[..|h| - 1])
  }

  // `Commits` in terms of maximal runs: such a run always has two samples or more.
  lemma CommitsIff(initial: DoorState, h: seq<Sample>)
    requires h != []
    ensures Commits(initial, h) <==>
            exists j: nat :: MaximalRun(h, Committed(initial, h[..|h| - 1]), j) && |h| - j >= 2 &&
                             h[|h| - 1].at - h[j].at >= REED_DEBOUNCE_MS
  {
    var c := Committed(initial, h[..|h| - 1]);
    var r := RunStart(h, c);
    forall j: nat | MaximalRun(h, c, j) ensures j == r {
    }
  }

  class ReedDebouncer {
    var committed: DoorState
    var pending: Option<(DoorState, u64)>
    ghost const initial: DoorState
    ghost var history: seq<Sample>

    // The candidate is the run of disagreeing samples, since its first sample.
    ghost predicate Valid()
      reads this
    {
      && committed == Committed(initial, history)
      && var j := RunStart(history, committed);
         if j == |history| then pending == None
         else pending == Some((history[j].Level(), history[j].at))
    }

    constructor (start: DoorState)
      ensures Valid() && initial == start && history == []
    {
      committed, pending := start, None;
      initial, history := start, [];
    }

    method Update(reedClosed: bool, now: u64) returns (r: Option<DoorState>)
      requires Valid()
      modifies this
      ensures Valid() && history == old(history) + [Sample(reedClosed, now)]
      ensures r == if Commits(initial, history) then Some(Sample(reedClosed, now).Level()) else None
      ensures pending.Some? ==> pending.value.0 != committed
      ensures r.Some? ==> (r.value == Closed <==> reedClosed) && committed == r.value
    {
      var desired := if reedClosed then Closed else Open;
      ghost var before := history;
      history := history + [Sample(reedClosed, now)];
      assert history[..|history| - 1] == before;
      if desired == committed {
        pending := None;
        return None;
      }
      if pending.Some? && pending.value.0 == desired {
        var since := pending.value.1;
        var elapsed := if now >= since then now - since else 0;
        if elapsed >= REED_DEBOUNCE_MS {
          committed := desired;
          pending := None;
          return Some(desired);
        }
        return None;
      }
      pending := Some((desired, now));
      r := None;
    }
  }

  // A level the reed holds for 50 ms is the door's state: closed exactly when the
  // reed is closed, whatever was committed before.
  lemma HeldLevel(initial: DoorState, h: seq<Sample>, j: nat, closed: bool)
    requires j < |h| && (forall k :: j <= k < |h| ==> h[k].closed == closed)
    requires forall i, k :: 0 <= i < k < |h| ==> h[i].at <= h[k].at
    requires h[|h| - 1].at - h[j].at >= 50
    ensures Committed(initial, h) == if closed then Closed else Open
  {
    var before, last := h[..|h| - 1], h[|h| - 1];
    var c := Committed(initial, before);
    if c == last.Level() {
    } else {
      var r := RunStart(h, c);
      assert forall k :: j <= k < |h| ==> h[k].Level() != c;
      assert h[r].at <= h[j].at;
    }
  }

  datatype Emission = Emission(state: DoorState, at: u64)

  // Everything emitted over a history.
  function Emissions(initial: DoorState, h: seq<Sample>): seq<Emission> {
    if h == [] then []
    else
      var last := h[|h| - 1];
      Emissions(initial, h[..|h| - 1]) +
      if Commits(initial, h) then [Emission(last.Level(), last.at)] else []
  }

  // The last emission is a sample at the committed level.
  lemma {:induction false} LastEmission(initial: DoorState, h: seq<Sample>) returns (i: nat)
    ensures var es := Emissions(initial, h);
            if es == [] then Committed(initial, h) == initial
            else i < |h| && h[i].Level() == Committed(initial, h) == es[|es| - 1].state && h[i].at == es[|es| - 1].at
  {
    i := 0;
    if h == [] {
    } else {
      if Commits(initial, h) {
        i := |h| - 1;
      } else {
        i := LastEmission(initial, h[..|h| - 1]);
      }
    }
  }

  // Emissions alternate, starting from the other state, and come 50 ms apart.
  lemma {:induction false} EmissionsAlternate(initial: DoorState, h: seq<Sample>, k: nat)
    requires k < |Emissions(initial, h)|
    requires forall i, j :: 0 <= i < j < |h| ==> h[i].at <= h[j].at
    ensures var es := Emissions(initial, h);
            if k == 0 then es[0].state != initial
            else es[k].state != es[k - 1].state && es[k].at >= es[k - 1].at + 50
  {
    var prefix := h[..|h| - 1];
    if k < |Emissions(initial, prefix)| {
      EmissionsAlternate(initial, prefix, k);
    } else {
      var i := LastEmission(initial, prefix);
      var j := RunStart(h, Committed(initial, prefix));
      if k > 0 {
        assert h[i].Level() == Committed(initial, prefix);
        assert i < j;
      }
    }
  }
}
