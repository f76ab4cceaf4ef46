/**
 The async client's lifecycle (rust/src/async_client.rs) with its operation limiter
 (rust/src/backpressure.rs), as a machine of atomic steps.

 Python calls, connect futures, close futures and operations interleave freely, within what the
 bindings guarantee: a `&mut self` method runs alone against other methods, though not against
 spawned futures, and a future is cancelled only at an await. A future dropped before its first
 poll is included, because the guard does not exist yet at that point.
 */
module AsyncLifecycle {
  import opened Wrappers

  type Usize = n: nat | n < 0x1_0000_0000_0000_0000

  /** `Semaphore::MAX_PERMITS` on a 64-bit host; making a larger semaphore panics. */
  const MAX_PERMITS: nat := 0x1FFF_FFFF_FFFF_FFFF

  datatype Phase = Disconnected | Connecting | Connected | Closing

  /** `self.limiter`: the pass-through limiter, or the one installed by the connect of an epoch. */
  datatype Limiter = Disabled | OfEpoch(epoch: nat)

  /** The future returned by the connect of one epoch; its guard is armed exactly while `Awaiting`. */
  datatype ConnectFuture = Spawned | Awaiting | InnerStored | ConnectEnded | Orphaned

  datatype CloseFuture = CloseRunning(client: Option<nat>) | CloseEnded | CloseAbandoned

  /** One limiter-gated operation such as `put`. */
  datatype Operation =
    | Loaded(client: nat)
    | Captured(client: nat, limiter: Limiter)
    | InFlight(client: nat, limiter: Limiter, permit: bool)
    | OperationEnded

  /** How far a running `&mut self` method has come. */
  datatype Exclusive =
    | Idle
    | ConnectSwapped(maxOps: Usize)
    | CloseChecked
    | CloseStored
    | CloseSwapped(client: Option<nat>)

  /**
   An epoch is the number of a connect that got as far as its future; it also names its client and
   limiter. `aborted` says that a connect unwound after its CAS and before its future.
   */
  datatype State = State(
    phase: Phase,
    inner: Option<nat>,
    limiter: Limiter,
    capacities: seq<nat>,
    permits: seq<nat>,
    connects: seq<ConnectFuture>,
    closes: seq<CloseFuture>,
    operations: seq<Operation>,
    exclusive: Exclusive,
    aborted: bool)

  const INITIAL := State(Disconnected, None, Disabled, [], [], [], [], [], Idle, false)

  datatype Event =
    | ConnectCas(maxOps: Usize)
    | ConnectInstall
    | ConnectAbort
    | ConnectPoll(epoch: nat)
    | ConnectSucceed(epoch: nat)
    | ConnectPublish(epoch: nat)
    | ConnectFail(epoch: nat)
    | ConnectCancel(epoch: nat)
    | ConnectDropUnpolled(epoch: nat)
    | CloseCheck
    | CloseStore
    | CloseSwap
    | CloseReset
    | CloseFinish(n: nat)
    | CloseDrop(n: nat)
    | OperationLoad
    | OperationCapture(i: nat)
    | OperationAcquire(i: nat)
    | OperationEnd(i: nat)

  predicate NoBorrow(s: State) {
    forall i :: 0 <= i < |s.operations| ==> !s.operations[i].Loaded?
  }

  predicate ConnectAt(s: State, e: nat, f: ConnectFuture) {
    e < |s.connects| && s.connects[e] == f
  }

  function StepConnect(s: State, ev: Event): State {
    match ev
    case ConnectCas(maxOps) =>
      if s.exclusive.Idle? && NoBorrow(s) && s.phase.Disconnected? then
        s.(phase := Connecting, exclusive := ConnectSwapped(maxOps))
      else s
    case ConnectInstall =>
      if s.exclusive.ConnectSwapped? && s.exclusive.maxOps <= MAX_PERMITS then
        s.(limiter := OfEpoch(|s.connects|),
           capacities := s.capacities + [s.exclusive.maxOps],
           permits := s.permits + [s.exclusive.maxOps],
           connects := s.connects + [Spawned],
           exclusive := Idle)
      else s
    case ConnectAbort =>
      // `OperationLimiter::new` panics, and nothing has been made yet that would undo the CAS.
      if s.exclusive.ConnectSwapped? && s.exclusive.maxOps > MAX_PERMITS then
        s.(aborted := true, exclusive := Idle)
      else s
    case ConnectPoll(e) =>
      if ConnectAt(s, e, Spawned) then s.(connects := s.connects[e := Awaiting]) else s
    case ConnectSucceed(e) =>
      if ConnectAt(s, e, Awaiting) then s.(inner := Some(e), connects := s.connects[e := InnerStored]) else s
    case ConnectPublish(e) =>
      if ConnectAt(s, e, InnerStored) then s.(phase := Connected, connects := s.connects[e := ConnectEnded]) else s
    case ConnectFail(e) =>
      if ConnectAt(s, e, Awaiting) then s.(phase := Disconnected, connects := s.connects[e := ConnectEnded]) else s
    case ConnectCancel(e) =>
      // The guard's Drop: a compare-exchange from CONNECTING to DISCONNECTED.
      if ConnectAt(s, e, Awaiting) then
        s.(phase := if s.phase.Connecting? then Disconnected else s.phase, connects := s.connects[e := ConnectEnded])
      else s
    case ConnectDropUnpolled(e) =>
      if ConnectAt(s, e, Spawned) then s.(connects := s.connects[e := Orphaned]) else s
    case _ => s
  }

  function StepClose(s: State, ev: Event): State {
    match ev
    case CloseCheck =>
      if s.exclusive.Idle? && NoBorrow(s) && s.phase.Connected? then s.(exclusive := CloseChecked) else s
    case CloseStore =>
      if s.exclusive.CloseChecked? then s.(phase := Closing, exclusive := CloseStored) else s
    case CloseSwap =>
      if s.exclusive.CloseStored? then s.(inner := None, exclusive := CloseSwapped(s.inner)) else s
    case CloseReset =>
      if s.exclusive.CloseSwapped? then
        s.(limiter := Disabled, closes := s.closes + [CloseRunning(s.exclusive.client)], exclusive := Idle)
      else s
    case CloseFinish(n) =>
      if n < |s.closes| && s.closes[n].CloseRunning? then
        s.(phase := Disconnected, closes := s.closes[n := CloseEnded])
      else s
    case CloseDrop(n) =>
      if n < |s.closes| && s.closes[n].CloseRunning? then s.(closes := s.closes[n := CloseAbandoned]) else s
    case _ => s
  }

  function StepOperation(s: State, ev: Event): State {
    match ev
    case OperationLoad =>
      if s.exclusive.Idle? && s.inner.Some? then s.(operations := s.operations + [Loaded(s.inner.value)]) else s
    case OperationCapture(i) =>
      if i < |s.operations| && s.operations[i].Loaded? then
        s.(operations := s.operations[i := Captured(s.operations[i].client, s.limiter)])
      else s
    case OperationAcquire(i) =>
      if i < |s.operations| && s.operations[i].Captured? then
        var op := s.operations[i];
        match op.limiter
        case Disabled => s.(operations := s.operations[i := InFlight(op.client, op.limiter, false)])
        case OfEpoch(e) =>
          if e >= |s.permits| || e >= |s.capacities| then s
          else if s.capacities[e] == 0 then
            s.(operations := s.operations[i := InFlight(op.client, op.limiter, false)])
          else if s.permits[e] > 0 then
            s.(operations := s.operations[i := InFlight(op.client, op.limiter, true)],
               permits := s.permits[e := s.permits[e] - 1])
          else s
      else s
    case OperationEnd(i) =>
      if i < |s.operations| && s.operations[i].Captured? then
        s.(operations := s.operations[i := OperationEnded])
      else if i < |s.operations| && s.operations[i].InFlight? then
        var op := s.operations[i];
        var freed := s.(operations := s.operations[i := OperationEnded]);
        if op.permit && op.limiter.OfEpoch? && op.limiter.epoch < |s.permits| then
          freed.(permits := s.permits[op.limiter.epoch := s.permits[op.limiter.epoch] + 1])
        else freed
      else s
    case _ => s
  }

  /** One atomic step; an event that is not enabled changes nothing. */
  function Step(s: State, ev: Event): State {
    if IsConnectEvent(ev) then StepConnect(s, ev)
    else if IsCloseEvent(ev) then StepClose(s, ev)
    else StepOperation(s, ev)
  }

  predicate IsConnectEvent(ev: Event) {
    ev.ConnectCas? || ev.ConnectInstall? || ev.ConnectAbort? || ev.ConnectPoll? || ev.ConnectSucceed?
    || ev.ConnectPublish? || ev.ConnectFail? || ev.ConnectCancel? || ev.ConnectDropUnpolled?
  }

  predicate IsCloseEvent(ev: Event) {
    ev.CloseCheck? || ev.CloseStore? || ev.CloseSwap? || ev.CloseReset? || ev.CloseFinish? || ev.CloseDrop?
  }

  function Run(s: State, events: seq<Event>): State
    decreases |events|
  {
    if events == [] then s else Run(Step(s, events[0]), events[1..])
  }

  // ---- The invariant --------------------------------------------------------------------

  predicate LiveConnect(f: ConnectFuture) {
    !f.ConnectEnded?
  }

  predicate LiveClose(f: CloseFuture) {
    !f.CloseEnded?
  }

  function LastConnect(s: State): ConnectFuture {
    if s.connects == [] then ConnectEnded else s.connects[|s.connects| - 1]
  }

  function LastClose(s: State): CloseFuture {
    if s.closes == [] then CloseEnded else s.closes[|s.closes| - 1]
  }

  ghost predicate OwnershipInv(s: State) {
    && (forall e :: 0 <= e < |s.connects| - 1 ==> s.connects[e].ConnectEnded?)
    && (forall n :: 0 <= n < |s.closes| - 1 ==> s.closes[n].CloseEnded?)
    && (s.phase.Connecting? <==> s.exclusive.ConnectSwapped? || LiveConnect(LastConnect(s)) || s.aborted)
    && (s.aborted ==> !s.exclusive.ConnectSwapped? && !LiveConnect(LastConnect(s)))
    && (s.phase.Closing? <==> s.exclusive.CloseStored? || s.exclusive.CloseSwapped? || LiveClose(LastClose(s)))
    && (s.exclusive.ConnectSwapped? ==> !LiveConnect(LastConnect(s)))
    && (s.exclusive.CloseStored? || s.exclusive.CloseSwapped? ==> !LiveClose(LastClose(s)))
    && (s.exclusive.CloseChecked? ==> s.phase.Connected?)
  }

  ghost predicate InnerInv(s: State) {
    && (s.inner.Some? ==> |s.connects| > 0 && s.inner.value == |s.connects| - 1 && s.limiter == OfEpoch(s.inner.value))
    && (LiveConnect(LastConnect(s)) ==> s.limiter == OfEpoch(|s.connects| - 1))
    && (s.phase.Connected? ==> s.inner.Some?)
    && (s.phase.Disconnected? ==> s.inner.None?)
    && (s.phase.Connecting? ==> (s.inner.Some? <==> LastConnect(s).InnerStored?))
    && (s.phase.Closing? ==> (s.inner.Some? <==> s.exclusive.CloseStored?))
  }

  /** An operation pairs a client with the limiter of that client's own epoch. */
  predicate Paired(s: State, op: Operation) {
    match op
    case Loaded(c) => s.exclusive.Idle? && c < |s.connects| && s.limiter == OfEpoch(c)
    case Captured(c, l) => c < |s.connects| && l == OfEpoch(c)
    case InFlight(c, l, permit) =>
      c < |s.connects| && c < |s.capacities| && l == OfEpoch(c) && (permit <==> s.capacities[c] > 0)
    case OperationEnded => true
  }

  ghost predicate OperationInv(s: State) {
    forall i :: 0 <= i < |s.operations| ==> Paired(s, s.operations[i])
  }

  /** Operations in flight on the client of epoch `e`. */
  function InFlightOn(ops: seq<Operation>, e: nat): nat {
    if ops == [] then 0
    else InFlightOn(ops[..|ops| - 1], e) + Weight(ops[|ops| - 1], e)
  }

  function Weight(op: Operation, e: nat): nat {
    if op.InFlight? && op.client == e then 1 else 0
  }

  /** Permits available plus permits held make up the capacity. */
  ghost predicate PermitInv(s: State) {
    && |s.capacities| == |s.permits| == |s.connects|
    && forall e :: 0 <= e < |s.capacities| && s.capacities[e] > 0
         ==> s.permits[e] + InFlightOn(s.operations, e) == s.capacities[e]
  }

  ghost predicate Inv(s: State) {
    OwnershipInv(s) && InnerInv(s) && OperationInv(s) && PermitInv(s)
  }

  lemma {:induction false} InFlightUpdate(ops: seq<Operation>, i: nat, op: Operation, e: nat)
    requires i < |ops|
    ensures InFlightOn(ops[i := op], e) == InFlightOn(ops, e) - Weight(ops[i], e) + Weight(op, e)
  {
    var n := |ops| - 1;
    if i < n {
      assert ops[i := op][..n] == ops[..n][i := op];
      InFlightUpdate(ops[..n], i, op, e);
    } else {
      assert ops[i := op][..n] == ops[..n];
    }
  }

  lemma InFlightAppend(ops: seq<Operation>, op: Operation, e: nat)
    ensures InFlightOn(ops + [op], e) == InFlightOn(ops, e) + Weight(op, e)
  {
    assert (ops + [op])[..|ops|] == ops;
  }

  /** No operation can be in flight on an epoch that has not begun. */
  lemma {:induction false} NoneInFlight(s: State, ops: seq<Operation>, e: nat)
    requires e >= |s.connects| && forall i :: 0 <= i < |ops| ==> Paired(s, ops[i])
    ensures InFlightOn(ops, e) == 0
  {
    if ops != [] {
      NoneInFlight(s, ops[..|ops| - 1], e);
    }
  }

  lemma ConnectStepOwnership(s: State, ev: Event)
    requires Inv(s) && IsConnectEvent(ev)
    ensures OwnershipInv(StepConnect(s, ev)) && InnerInv(StepConnect(s, ev))
  {
  }

  lemma ConnectStepInv(s: State, ev: Event)
    requires Inv(s) && IsConnectEvent(ev)
    ensures Inv(StepConnect(s, ev))
  {
    var t := StepConnect(s, ev);
    ConnectStepOwnership(s, ev);
    if ev.ConnectInstall? {
      NoneInFlight(s, s.operations, |s.connects|);
    }
    assert t.operations == s.operations;
    assert forall i :: 0 <= i < |s.operations| ==> Paired(s, s.operations[i]) ==> Paired(t, s.operations[i]);
  }

  lemma CloseStepInv(s: State, ev: Event)
    requires Inv(s) && IsCloseEvent(ev)
    ensures Inv(StepClose(s, ev))
  {
    var t := StepClose(s, ev);
    assert OwnershipInv(t);
    assert InnerInv(t);
  }

  lemma AcquireKeepsPermits(s: State, i: nat, e: nat)
    requires Inv(s) && i < |s.operations| && s.operations[i].Captured?
    requires e < |s.capacities| && s.capacities[e] > 0
    ensures var t := StepOperation(s, OperationAcquire(i));
            |t.permits| == |s.permits| && t.permits[e] + InFlightOn(t.operations, e) == s.capacities[e]
  {
    assert Paired(s, s.operations[i]);
    InFlightUpdate(s.operations, i, StepOperation(s, OperationAcquire(i)).operations[i], e);
  }

  lemma OperationKeepsPermits(s: State, ev: Event, e: nat)
    requires Inv(s) && !IsConnectEvent(ev) && !IsCloseEvent(ev)
    requires e < |s.capacities| && s.capacities[e] > 0
    ensures var t := StepOperation(s, ev);
            && |t.permits| == |s.permits|
            && t.capacities == s.capacities
            && t.permits[e] + InFlightOn(t.operations, e) == s.capacities[e]
  {
    var t := StepOperation(s, ev);
    if t != s {
      match ev {
        case OperationLoad => InFlightAppend(s.operations, Loaded(s.inner.value), e);
        case OperationCapture(i) => InFlightUpdate(s.operations, i, t.operations[i], e);
        case OperationAcquire(i) => AcquireKeepsPermits(s, i, e);
        case OperationEnd(i) =>
          assert Paired(s, s.operations[i]);
          InFlightUpdate(s.operations, i, OperationEnded, e);
      }
    }
  }

  /** Pairing looks at nothing that an operation's step changes. */
  lemma StillPaired(s: State, t: State, op: Operation)
    requires Paired(s, op)
    requires t.exclusive == s.exclusive && t.connects == s.connects && t.capacities == s.capacities
      && t.limiter == s.limiter
    ensures Paired(t, op)
  {
  }

  /** The operation that a step changes or adds is paired. */
  lemma ChangedIsPaired(s: State, ev: Event, i: nat)
    requires Inv(s) && !IsConnectEvent(ev) && !IsCloseEvent(ev)
    requires i < |StepOperation(s, ev).operations|
    requires i < |s.operations| ==> StepOperation(s, ev).operations[i] != s.operations[i]
    ensures Paired(StepOperation(s, ev), StepOperation(s, ev).operations[i])
  {
    if i < |s.operations| {
      assert Paired(s, s.operations[i]);
      if ev.OperationAcquire? {
        AdmittedIsPaired(s, i);
      }
    }
  }

  lemma AdmittedIsPaired(s: State, i: nat)
    requires Inv(s) && i < |s.operations| && s.operations[i].Captured?
    ensures var t := StepOperation(s, OperationAcquire(i));
            i < |t.operations| && Paired(t, t.operations[i])
  {
    assert Paired(s, s.operations[i]);
  }

  lemma OperationKeepsPairing(s: State, ev: Event)
    requires Inv(s) && !IsConnectEvent(ev) && !IsCloseEvent(ev)
    ensures OperationInv(StepOperation(s, ev))
  {
    var t := StepOperation(s, ev);
    forall i | 0 <= i < |t.operations|
      ensures Paired(t, t.operations[i])
    {
      if i < |s.operations| && t.operations[i] == s.operations[i] {
        StillPaired(s, t, s.operations[i]);
      } else {
        ChangedIsPaired(s, ev, i);
      }
    }
  }

  lemma OperationStepInv(s: State, ev: Event)
    requires Inv(s) && !IsConnectEvent(ev) && !IsCloseEvent(ev)
    ensures Inv(StepOperation(s, ev))
  {
    var t := StepOperation(s, ev);
    OperationKeepsPairing(s, ev);
    assert t == s.(operations := t.operations, permits := t.permits) && |t.permits| == |s.permits|;
    forall e | 0 <= e < |s.capacities| && s.capacities[e] > 0
      ensures t.permits[e] + InFlightOn(t.operations, e) == t.capacities[e]
    {
      OperationKeepsPermits(s, ev, e);
    }
  }

  lemma StepInv(s: State, ev: Event)
    requires Inv(s)
    ensures Inv(Step(s, ev))
  {
    if IsConnectEvent(ev) {
      ConnectStepInv(s, ev);
    } else if IsCloseEvent(ev) {
      CloseStepInv(s, ev);
    } else {
      OperationStepInv(s, ev);
    }
  }

  lemma {:induction false} RunInv(s: State, events: seq<Event>)
    requires Inv(s)
    ensures Inv(Run(s, events))
    decreases |events|
  {
    if events != [] {
      StepInv(s, events[0]);
      RunInv(Step(s, events[0]), events[1..]);
    }
  }

  // ---- Safety over all runs -------------------------------------------------------------

  /**
   No client instance ever has more gated operations in flight than its own limiter allows, in
   any run of connects, cancellations, closes and reconnects, even after it was closed.
   */
  lemma ConcurrencyBound(events: seq<Event>, e: nat)
    requires e < |Run(INITIAL, events).capacities| && Run(INITIAL, events).capacities[e] > 0
    ensures var s := Run(INITIAL, events);
            && e < |s.permits|
            && s.permits[e] + InFlightOn(s.operations, e) == s.capacities[e]
            && InFlightOn(s.operations, e) <= s.capacities[e]
  {
    RunInv(INITIAL, events);
  }

  /** The connect that swapped with limit `m` has not made epoch `e` yet, or has made it with that limit. */
  predicate LimitCarried(s: State, e: nat, m: Usize) {
    if |s.capacities| <= e then |s.capacities| == e && s.exclusive == ConnectSwapped(m)
    else s.capacities[e] == m
  }

  lemma LimitCarriedStep(s: State, ev: Event, e: nat, m: Usize)
    requires Inv(s) && LimitCarried(s, e, m) && m <= MAX_PERMITS
    ensures LimitCarried(Step(s, ev), e, m)
  {
  }

  lemma {:induction false} LimitCarriedRun(s: State, events: seq<Event>, e: nat, m: Usize)
    requires Inv(s) && LimitCarried(s, e, m) && m <= MAX_PERMITS
    ensures LimitCarried(Run(s, events), e, m)
    decreases |events|
  {
    if events != [] {
      StepInv(s, events[0]);
      LimitCarriedStep(s, events[0], e, m);
      LimitCarriedRun(Step(s, events[0]), events[1..], e, m);
    }
  }

  /** An operation that waits on epoch `e` is admitted exactly while fewer than `m` run there; limit 0 admits all. */
  ghost predicate AdmitsUpTo(s: State, e: nat, m: nat) {
    && (m > 0 ==> InFlightOn(s.operations, e) <= m)
    && forall i: nat :: i < |s.operations| && s.operations[i].Captured? && s.operations[i].client == e ==>
         var t := Step(s, OperationAcquire(i));
         if m == 0 || InFlightOn(s.operations, e) < m then
           && t.operations[i].InFlight? && t.operations[i].client == e
           && InFlightOn(t.operations, e) == InFlightOn(s.operations, e) + 1
         else t == s
  }

  lemma AdmitsItsCapacity(s: State, e: nat)
    requires Inv(s) && e < |s.capacities|
    ensures AdmitsUpTo(s, e, s.capacities[e])
  {
    forall i: nat | i < |s.operations| && s.operations[i].Captured? && s.operations[i].client == e
      ensures var t := Step(s, OperationAcquire(i));
              if s.capacities[e] == 0 || InFlightOn(s.operations, e) < s.capacities[e] then
                && t.operations[i].InFlight? && t.operations[i].client == e
                && InFlightOn(t.operations, e) == InFlightOn(s.operations, e) + 1
              else t == s
    {
      assert Paired(s, s.operations[i]);
      InFlightUpdate(s.operations, i, Step(s, OperationAcquire(i)).operations[i], e);
    }
  }

  /**
   The configured limit is the limit that is applied. Whatever happens after a connect with limit `m` has
   got past its compare-exchange, the epoch it makes never has more than `m` operations in flight, and an
   operation on it is let through whenever fewer than `m` are, or always when `m` is 0.
   */
  lemma ConfiguredLimitApplies(before: seq<Event>, m: Usize, after: seq<Event>)
    requires m <= MAX_PERMITS
    requires Run(INITIAL, before).exclusive.Idle? && NoBorrow(Run(INITIAL, before))
    requires Run(INITIAL, before).phase.Disconnected?
    ensures var s := Run(INITIAL, before);
            && LastConnect(Step(Step(s, ConnectCas(m)), ConnectInstall)).Spawned?
            && |Step(Step(s, ConnectCas(m)), ConnectInstall).connects| == |s.connects| + 1
    ensures var e := |Run(INITIAL, before).connects|;
            var s := Run(INITIAL, before + [ConnectCas(m)] + after);
            e < |s.connects| ==> AdmitsUpTo(s, e, m)
  {
    var s := Run(INITIAL, before);
    RunInv(INITIAL, before);
    var e, t := |s.connects|, Step(s, ConnectCas(m));
    StepInv(s, ConnectCas(m));
    LimitCarriedRun(t, after, e, m);
    RunInv(t, after);
    RunConcat(INITIAL, before + [ConnectCas(m)], after);
    RunConcat(INITIAL, before, [ConnectCas(m)]);
    assert [ConnectCas(m)][1..] == [] && Run(t, []) == t;
    assert Run(s, [ConnectCas(m)]) == t;
    var u := Run(t, after);
    if e < |u.connects| {
      AdmitsItsCapacity(u, e);
    }
  }

  /** A stored client is always accompanied by its own limiter, and so is every operation that captured one. */
  lemma ClientsKeepTheirLimiter(events: seq<Event>)
    ensures var s := Run(INITIAL, events);
            && (s.inner.Some? ==> s.limiter == OfEpoch(s.inner.value))
            && (forall i :: 0 <= i < |s.operations| && s.operations[i].Captured?
                  ==> s.operations[i].limiter == OfEpoch(s.operations[i].client))
            && (forall i :: 0 <= i < |s.operations| && s.operations[i].InFlight?
                  ==> s.operations[i].limiter == OfEpoch(s.operations[i].client))
  {
    RunInv(INITIAL, events);
    var s := Run(INITIAL, events);
    assert forall i :: 0 <= i < |s.operations| ==> Paired(s, s.operations[i]);
  }

  /** Who may still move the lifecycle out of `Connecting` or `Closing`. */
  datatype Owner = RunningMethod | ConnectOf(epoch: nat) | CloseOf(n: nat)

  predicate Owns(s: State, o: Owner) {
    match o
    case RunningMethod => s.exclusive.ConnectSwapped? || s.exclusive.CloseStored? || s.exclusive.CloseSwapped?
    case ConnectOf(e) => e < |s.connects| && LiveConnect(s.connects[e])
    case CloseOf(n) => n < |s.closes| && LiveClose(s.closes[n])
  }

  lemma OwnerExists(s: State)
    requires Inv(s)
    ensures (exists o :: Owns(s, o)) <==> (s.phase.Connecting? || s.phase.Closing?) && !s.aborted
  {
    if (s.phase.Connecting? || s.phase.Closing?) && !s.aborted {
      if Owns(s, RunningMethod) {
      } else if LiveConnect(LastConnect(s)) {
        assert Owns(s, ConnectOf(|s.connects| - 1));
      } else {
        assert Owns(s, CloseOf(|s.closes| - 1));
      }
    }
  }

  lemma OwnerUnique(s: State, a: Owner, b: Owner)
    requires Inv(s) && Owns(s, a) && Owns(s, b)
    ensures a == b
  {
  }

  /**
   In every reachable state a transient phase has exactly one owner and a settled phase has none,
   except that nothing owns the `Connecting` of a connect that was aborted.
   */
  lemma SingleOwner(events: seq<Event>)
    ensures var s := Run(INITIAL, events);
            && ((exists o :: Owns(s, o)) <==> (s.phase.Connecting? || s.phase.Closing?) && !s.aborted)
            && (s.aborted ==> s.phase.Connecting?)
            && (forall a, b :: Owns(s, a) && Owns(s, b) ==> a == b)
            && (s.phase.Connected? ==> s.inner.Some?)
            && (s.phase.Disconnected? ==> s.inner.None?)
  {
    RunInv(INITIAL, events);
    var s := Run(INITIAL, events);
    OwnerExists(s);
    forall a, b | Owns(s, a) && Owns(s, b)
      ensures a == b
    {
      OwnerUnique(s, a, b);
    }
  }

  /** `is_connected`, which reads the state and then the client. */
  predicate IsConnected(s: State) {
    s.phase.Connected? && s.inner.Some?
  }

  lemma ConnectStoresExpected(s: State, ev: Event)
    requires Inv(s) && Step(s, ev) != s && (ev.ConnectPublish? || ev.ConnectFail? || ev.ConnectCancel?)
    ensures s.phase.Connecting? && ev.epoch == |s.connects| - 1
    ensures ev.ConnectCancel? ==> Step(s, ev).phase.Disconnected?
  {
  }

  lemma CloseStoresExpected(s: State, ev: Event)
    requires Inv(s) && Step(s, ev) != s
    ensures ev.CloseStore? ==> s.phase.Connected? && s.inner.Some?
    ensures ev.CloseFinish? ==> s.phase.Closing? && s.inner.None? && ev.n == |s.closes| - 1
  {
  }

  /**
   Every unconditional store and the guard's compare-exchange act on the phase they expect, so
   none of them overwrites what another future or method has done since.
   */
  lemma StoresLoseNothing(events: seq<Event>, ev: Event)
    ensures var s, t := Run(INITIAL, events), Step(Run(INITIAL, events), ev);
            && (IsConnected(s) <==> s.phase.Connected?)
            // CONNECTED, and DISCONNECTED after a failure, replace the CONNECTING of the same connect.
            && (ev.ConnectPublish? && t != s ==> s.phase.Connecting? && ev.epoch == |s.connects| - 1)
            && (ev.ConnectFail? && t != s ==> s.phase.Connecting? && ev.epoch == |s.connects| - 1)
            // The guard reverts its own CONNECTING and never that of a later connect.
            && (ev.ConnectCancel? && t != s ==>
                  s.phase.Connecting? && ev.epoch == |s.connects| - 1 && t.phase.Disconnected?)
            // The CLOSING stored after a separate load replaces the CONNECTED that was loaded.
            && (ev.CloseStore? && t != s ==> s.phase.Connected? && s.inner.Some?)
            // The close future's DISCONNECTED replaces the CLOSING of the same close.
            && (ev.CloseFinish? && t != s ==> s.phase.Closing? && s.inner.None? && ev.n == |s.closes| - 1)
  {
    RunInv(INITIAL, events);
    var s := Run(INITIAL, events);
    if Step(s, ev) != s {
      if ev.ConnectPublish? || ev.ConnectFail? || ev.ConnectCancel? {
        ConnectStoresExpected(s, ev);
      }
      CloseStoresExpected(s, ev);
    }
  }

  // ---- Recovery -------------------------------------------------------------------------

  /** A connect that cannot get to its future, or a future that can no longer run, has the phase. */
  predicate Wedged(s: State) {
    || s.aborted || (s.exclusive.ConnectSwapped? && s.exclusive.maxOps > MAX_PERMITS)
    || LastConnect(s).Orphaned? || LastClose(s).CloseAbandoned?
  }

  ghost predicate Recoverable(s: State) {
    exists events :: Run(s, events).phase.Disconnected?
  }

  lemma WedgedConnectStep(s: State, ev: Event)
    requires Inv(s) && Wedged(s) && IsConnectEvent(ev)
    ensures Wedged(StepConnect(s, ev)) && StepConnect(s, ev).phase == s.phase
  {
  }

  lemma WedgedCloseStep(s: State, ev: Event)
    requires Inv(s) && Wedged(s) && IsCloseEvent(ev)
    ensures Wedged(StepClose(s, ev)) && StepClose(s, ev).phase == s.phase
  {
  }

  lemma WedgedStep(s: State, ev: Event)
    requires Inv(s) && Wedged(s)
    ensures Wedged(Step(s, ev)) && Step(s, ev).phase == s.phase && !s.phase.Disconnected?
  {
    if IsConnectEvent(ev) {
      WedgedConnectStep(s, ev);
    } else if IsCloseEvent(ev) {
      WedgedCloseStep(s, ev);
    }
  }

  /** Nothing un-wedges a client: it stays in its transient phase through every continuation. */
  lemma {:induction false} WedgedForever(s: State, events: seq<Event>)
    requires Inv(s) && Wedged(s)
    ensures Wedged(Run(s, events)) && Run(s, events).phase == s.phase && !s.phase.Disconnected?
    decreases |events|
  {
    if events != [] {
      StepInv(s, events[0]);
      WedgedStep(s, events[0]);
      WedgedForever(Step(s, events[0]), events[1..]);
    }
  }

  function LoadedCount(ops: seq<Operation>): nat {
    if ops == [] then 0
    else LoadedCount(ops[..|ops| - 1]) + (if ops[|ops| - 1].Loaded? then 1 else 0)
  }

  lemma {:induction false} LoadedUpdate(ops: seq<Operation>, i: nat, op: Operation)
    requires i < |ops| && ops[i].Loaded? && !op.Loaded?
    ensures LoadedCount(ops[i := op]) < LoadedCount(ops)
  {
    var n := |ops| - 1;
    if i < n {
      assert ops[i := op][..n] == ops[..n][i := op];
      LoadedUpdate(ops[..n], i, op);
    } else {
      assert ops[i := op][..n] == ops[..n];
    }
  }

  /** Steps left until `Disconnected`, not counting operations that still hold a borrow. */
  function Rank(s: State): nat {
    match s.exclusive
    case ConnectSwapped(_) => 10
    case CloseChecked => 5
    case CloseStored => 4
    case CloseSwapped(_) => 3
    case Idle =>
      match s.phase
      case Disconnected => 0
      case Connecting =>
        (match LastConnect(s)
         case Spawned => 9
         case Awaiting => 8
         case InnerStored => 7
         case ConnectEnded => 0
         case Orphaned => 0)
      case Connected => 6
      case Closing => 2
  }

  /** The next step on the way to `Disconnected`. */
  ghost function NextStep(s: State): (ev: Event)
    requires Inv(s) && !Wedged(s) && !s.phase.Disconnected?
  {
    match s.exclusive
    case ConnectSwapped(_) => ConnectInstall
    case CloseChecked => CloseStore
    case CloseStored => CloseSwap
    case CloseSwapped(_) => CloseReset
    case Idle =>
      if s.phase.Connecting? then
        var e := |s.connects| - 1;
        if LastConnect(s).Spawned? then ConnectPoll(e)
        else if LastConnect(s).Awaiting? then ConnectCancel(e)
        else ConnectPublish(e)
      else if s.phase.Connected? then
        if NoBorrow(s) then CloseCheck
        else
          var i :| 0 <= i < |s.operations| && s.operations[i].Loaded?;
          OperationCapture(i)
      else CloseFinish(|s.closes| - 1)
  }

  ghost predicate Descends(s: State, t: State) {
    && !Wedged(t)
    && (Rank(t) < Rank(s) || (Rank(t) == Rank(s) && LoadedCount(t.operations) < LoadedCount(s.operations)))
  }

  lemma BusyStepDescends(s: State)
    requires Inv(s) && !Wedged(s) && !s.phase.Disconnected? && !s.exclusive.Idle?
    ensures Descends(s, Step(s, NextStep(s)))
  {
  }

  lemma ConnectingStepDescends(s: State)
    requires Inv(s) && !Wedged(s) && s.phase.Connecting? && s.exclusive.Idle?
    ensures Descends(s, Step(s, NextStep(s)))
  {
    var e := |s.connects| - 1;
    assert LiveConnect(LastConnect(s)) && ConnectAt(s, e, LastConnect(s));
  }

  lemma ConnectedStepDescends(s: State)
    requires Inv(s) && !Wedged(s) && s.phase.Connected? && s.exclusive.Idle?
    ensures Descends(s, Step(s, NextStep(s)))
  {
    var ev := NextStep(s);
    if ev.OperationCapture? {
      LoadedUpdate(s.operations, ev.i, Captured(s.operations[ev.i].client, s.limiter));
    }
  }

  lemma ClosingStepDescends(s: State)
    requires Inv(s) && !Wedged(s) && s.phase.Closing? && s.exclusive.Idle?
    ensures Descends(s, Step(s, NextStep(s)))
  {
    var n := |s.closes| - 1;
    assert LiveClose(LastClose(s)) && s.closes[n].CloseRunning?;
  }

  lemma NextStepDescends(s: State)
    requires Inv(s) && !Wedged(s) && !s.phase.Disconnected?
    ensures Descends(s, Step(s, NextStep(s)))
  {
    if !s.exclusive.Idle? {
      BusyStepDescends(s);
    } else {
      match s.phase {
        case Connecting => ConnectingStepDescends(s);
        case Connected => ConnectedStepDescends(s);
        case Closing => ClosingStepDescends(s);
      }
    }
  }

  lemma {:induction false} Recover(s: State)
    requires Inv(s) && !Wedged(s)
    ensures Recoverable(s)
    decreases Rank(s), LoadedCount(s.operations)
  {
    if s.phase.Disconnected? {
      assert Run(s, []).phase.Disconnected?;
    } else {
      var ev := NextStep(s);
      StepInv(s, ev);
      NextStepDescends(s);
      Recover(Step(s, ev));
      var rest :| Run(Step(s, ev), rest).phase.Disconnected?;
      assert ([ev] + rest)[1..] == rest;
      assert Run(s, [ev] + rest).phase.Disconnected?;
    }
  }

  /**
   From a reachable state the client can get back to `Disconnected` exactly when no connect with a
   limit beyond the largest semaphore got past its CAS, no connect future was dropped before its first
   poll, and no close future was dropped before its final store.
   */
  lemma RecoverableIff(events: seq<Event>)
    ensures var s := Run(INITIAL, events); Recoverable(s) <==> !Wedged(s)
  {
    var s := Run(INITIAL, events);
    RunInv(INITIAL, events);
    if Wedged(s) {
      forall more
        ensures !Run(s, more).phase.Disconnected?
      {
        WedgedForever(s, more);
      }
    } else {
      Recover(s);
    }
  }

  predicate LimitsWithin(events: seq<Event>, most: nat) {
    forall k :: 0 <= k < |events| && events[k].ConnectCas? ==> events[k].maxOps <= most
  }

  ghost predicate NotAborting(s: State) {
    !s.aborted && (s.exclusive.ConnectSwapped? ==> s.exclusive.maxOps <= MAX_PERMITS)
  }

  lemma {:induction false} StaysNotAborting(s: State, events: seq<Event>)
    requires NotAborting(s) && LimitsWithin(events, MAX_PERMITS)
    ensures NotAborting(Run(s, events))
    decreases |events|
  {
    if events != [] {
      assert forall k :: 0 <= k < |events[1..]| ==> events[1..][k] == events[k + 1];
      StaysNotAborting(Step(s, events[0]), events[1..]);
    }
  }

  /**
   With every configured limit within the bound, only dropped futures stand in the way of recovery, and
   phases are owned.
   */
  lemma RecoverableWithinLimits(events: seq<Event>)
    requires LimitsWithin(events, MAX_PERMITS)
    ensures var s := Run(INITIAL, events);
            && (Recoverable(s) <==> !LastConnect(s).Orphaned? && !LastClose(s).CloseAbandoned?)
            && ((exists o :: Owns(s, o)) <==> s.phase.Connecting? || s.phase.Closing?)
  {
    StaysNotAborting(INITIAL, events);
    RecoverableIff(events);
    SingleOwner(events);
  }

  /** Beyond the bound, connecting a client that could recover wedges it: no continuation gets it back. */
  lemma OversizedLimitWedges(events: seq<Event>, maxOps: Usize)
    requires maxOps > MAX_PERMITS
    requires Run(INITIAL, events).exclusive.Idle? && NoBorrow(Run(INITIAL, events))
      && Run(INITIAL, events).phase.Disconnected?
    ensures Recoverable(Run(INITIAL, events))
    ensures var s := Run(INITIAL, events + [ConnectCas(maxOps)]);
            && s.phase.Connecting? && !Recoverable(s)
            && Step(s, ConnectInstall) == s && Step(s, ConnectAbort).aborted
  {
    assert Run(Run(INITIAL, events), []).phase.Disconnected?;
    RunConcat(INITIAL, events, [ConnectCas(maxOps)]);
    var t := Run(INITIAL, events);
    assert [ConnectCas(maxOps)][1..] == [];
    assert Run(t, [ConnectCas(maxOps)]) == Run(Step(t, ConnectCas(maxOps)), []);
    RecoverableIff(events + [ConnectCas(maxOps)]);
  }

  /**
   A fresh client configured with 2^61 concurrent operations stays connecting for ever, though no
   future was ever made.
   */
  lemma OversizedLimitExample()
    ensures var s := Run(INITIAL, [ConnectCas(0x2000_0000_0000_0000), ConnectAbort]);
            s.phase.Connecting? && s.connects == [] && s.aborted && !Recoverable(s)
  {
    var events := [ConnectCas(0x2000_0000_0000_0000), ConnectAbort];
    var s1 := Step(INITIAL, events[0]);
    assert events[1..] == [ConnectAbort] && events[1..][1..] == [];
    assert Run(s1, events[1..]) == Run(Step(s1, ConnectAbort), []);
    RecoverableIff(events);
  }

  /**
   The guard's documented purpose, that dropping the awaitable never leaves the client stuck in
   `Connecting`, fails for an awaitable dropped before its first poll.
   */
  lemma UnpolledDropWedges(maxOps: Usize)
    ensures var s := Run(INITIAL, [ConnectCas(maxOps), ConnectInstall, ConnectDropUnpolled(0)]);
            s.phase.Connecting? && Wedged(s) && !Recoverable(s)
  {
    var events := [ConnectCas(maxOps), ConnectInstall, ConnectDropUnpolled(0)];
    var s1 := Step(INITIAL, events[0]);
    var s2 := Step(s1, events[1]);
    var s3 := Step(s2, events[2]);
    assert events[1..] == [ConnectInstall, ConnectDropUnpolled(0)];
    assert events[1..][1..] == [ConnectDropUnpolled(0)];
    assert events[1..][1..][1..] == [];
    assert Run(s2, events[1..][1..]) == s3;
    assert Run(s1, events[1..]) == s3;
    RecoverableIff(events);
  }

  lemma {:induction false} RunConcat(s: State, a: seq<Event>, b: seq<Event>)
    ensures Run(s, a + b) == Run(Run(s, a), b)
    decreases |a|
  {
    if a == [] {
      assert a + b == b;
    } else {
      assert (a + b)[1..] == a[1..] + b;
      RunConcat(Step(s, a[0]), a[1..], b);
    }
  }

  lemma RunFive(s: State, a: Event, b: Event, c: Event, d: Event, e: Event)
    ensures Run(s, [a, b, c, d, e]) == Step(Step(Step(Step(Step(s, a), b), c), d), e)
  {
    assert [a, b, c, d, e][1..] == [b, c, d, e] && [b, c, d, e][1..] == [c, d, e];
    assert [c, d, e][1..] == [d, e] && [d, e][1..] == [e] && [e][1..] == [];
    var t := Step(Step(Step(s, a), b), c);
    assert Run(Step(t, d), [e]) == Step(Step(t, d), e);
    assert Run(t, [d, e]) == Run(Step(t, d), [e]);
    assert Run(Step(Step(s, a), b), [c, d, e]) == Run(t, [d, e]);
    assert Run(Step(s, a), [b, c, d, e]) == Run(Step(Step(s, a), b), [c, d, e]);
  }

  const CONNECT: seq<Event> := [ConnectCas(0), ConnectInstall, ConnectPoll(0), ConnectSucceed(0), ConnectPublish(0)]
  const CLOSE_AND_DROP: seq<Event> := [CloseCheck, CloseStore, CloseSwap, CloseReset, CloseDrop(0)]

  lemma ConnectRun()
    ensures Run(INITIAL, CONNECT)
         == State(Connected, Some(0), OfEpoch(0), [0], [0], [ConnectEnded], [], [], Idle, false)
  {
    RunFive(INITIAL, ConnectCas(0), ConnectInstall, ConnectPoll(0), ConnectSucceed(0), ConnectPublish(0));
    var s2 := Step(Step(INITIAL, ConnectCas(0)), ConnectInstall);
    assert s2 == State(Connecting, None, OfEpoch(0), [0], [0], [Spawned], [], [], Idle, false);
    var s4 := Step(Step(s2, ConnectPoll(0)), ConnectSucceed(0));
    assert s4 == State(Connecting, Some(0), OfEpoch(0), [0], [0], [InnerStored], [], [], Idle, false);
  }

  lemma CloseRun(s: State)
    requires s == State(Connected, Some(0), OfEpoch(0), [0], [0], [ConnectEnded], [], [], Idle, false)
    ensures Run(s, CLOSE_AND_DROP)
         == State(Closing, None, Disabled, [0], [0], [ConnectEnded], [CloseAbandoned], [], Idle, false)
  {
    RunFive(s, CloseCheck, CloseStore, CloseSwap, CloseReset, CloseDrop(0));
    var s2 := Step(Step(s, CloseCheck), CloseStore);
    assert s2 == s.(phase := Closing, exclusive := CloseStored);
    var s4 := Step(Step(s2, CloseSwap), CloseReset);
    assert s4 == State(Closing, None, Disabled, [0], [0], [ConnectEnded], [CloseRunning(Some(0))], [], Idle, false);
  }

  /** A close whose future is dropped before its final store leaves the client closing for ever. */
  lemma DroppedCloseWedges()
    ensures var s := Run(INITIAL, CONNECT + CLOSE_AND_DROP);
            s.phase.Closing? && Wedged(s) && !Recoverable(s)
  {
    RunConcat(INITIAL, CONNECT, CLOSE_AND_DROP);
    ConnectRun();
    CloseRun(Run(INITIAL, CONNECT));
    RecoverableIff(CONNECT + CLOSE_AND_DROP);
  }
}
