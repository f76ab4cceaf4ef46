/**
 The async client as the source writes it: an object whose atomic fields are updated in place.

 Each method is one atomic piece of a method or future body. It takes the step of the lifecycle
 machine that it stands for and keeps the machine's invariant, which is this object's `Valid`, so
 callers learn here what each store replaced and what is still in flight. `Perform` and `Drive` show
 that the runs of the object are the runs of the machine.
 */
module AsyncClient {
  import opened Wrappers
  import opened AsyncLifecycle

  /** How one poll of an acquisition ends. */
  datatype Acquisition = Acquired | StillWaiting | TimedOut

  class PyAsyncClient {
    var phase: Phase
    var inner: Option<nat>
    var limiter: Limiter
    var capacities: seq<nat>
    var permits: seq<nat>
    var connects: seq<ConnectFuture>
    var closes: seq<CloseFuture>
    var operations: seq<Operation>
    var exclusive: Exclusive
    var aborted: bool

    function View(): State
      reads this
    {
      State(phase, inner, limiter, capacities, permits, connects, closes, operations, exclusive, aborted)
    }

    ghost predicate Valid()
      reads this
    {
      Inv(View())
    }

    /** Permits and operations of one client add up to its limit. */
    ghost predicate WithinLimit(epoch: nat)
      reads this
    {
      epoch < |capacities| && epoch < |permits|
      && (capacities[epoch] > 0 ==> permits[epoch] + InFlightOn(operations, epoch) == capacities[epoch])
    }

    constructor ()
      ensures Valid() && View() == INITIAL
    {
      phase, inner, limiter, exclusive, aborted := Disconnected, None, Disabled, Idle, false;
      capacities, permits, connects, closes, operations := [], [], [], [], [];
    }

    // ---- connect --------------------------------------------------------------------------

    /**
     The synchronous half of `connect`: it gets past the compare-exchange only from `Disconnected`, and
     with no client stored.
     */
    method BeginConnect(maxOps: Usize) returns (r: Result<(), Phase>)
      requires Valid() && exclusive.Idle? && NoBorrow(View())
      modifies this
      ensures Valid() && View() == Step(old(View()), ConnectCas(maxOps))
      ensures r == if old(phase).Disconnected? then Success(()) else Failure(old(phase))
      ensures r.Success? ==> phase.Connecting? && inner.None? && exclusive == ConnectSwapped(maxOps)
      ensures r.Failure? ==> View() == old(View())
    {
      ghost var before := View();
      StepInv(before, ConnectCas(maxOps));
      if phase != Disconnected {
        return Failure(phase);
      }
      phase := Connecting;
      exclusive := ConnectSwapped(maxOps);
      r := Success(());
    }

    /** The rest of `connect`: a fresh limiter with nothing in flight, then the future that owns `Connecting`. */
    method InstallLimiter() returns (epoch: nat)
      requires Valid() && exclusive.ConnectSwapped? && exclusive.maxOps <= MAX_PERMITS
      modifies this
      ensures Valid() && View() == Step(old(View()), ConnectInstall)
      ensures epoch == old(|connects|) && connects[epoch..] == [Spawned] && limiter == OfEpoch(epoch)
      ensures capacities == old(capacities) + [old(exclusive).maxOps]
      ensures permits == old(permits) + [old(exclusive).maxOps]
      ensures WithinLimit(epoch) && InFlightOn(operations, epoch) == 0
      ensures AdmitsUpTo(View(), epoch, old(exclusive).maxOps)
      ensures forall e: nat :: e < epoch ==> WithinLimit(e)
    {
      ghost var before := View();
      StepInv(before, ConnectInstall);
      NoneInFlight(before, operations, |connects|);
      epoch := |connects|;
      var maxOps := exclusive.maxOps;
      limiter := OfEpoch(epoch);
      capacities := capacities + [maxOps];
      permits := permits + [maxOps];
      connects := connects + [Spawned];
      exclusive := Idle;
      AdmitsItsCapacity(View(), epoch);
    }

    /** The limiter is too large to make: the panic leaves `Connecting` behind, for ever, with no future to own it. */
    method AbortConnect()
      requires Valid() && exclusive.ConnectSwapped? && exclusive.maxOps > MAX_PERMITS
      modifies this
      ensures Valid() && View() == Step(old(View()), ConnectAbort)
      ensures phase.Connecting? && connects == old(connects) && !Recoverable(View())
    {
      ghost var before := View();
      StepInv(before, ConnectAbort);
      aborted := true;
      exclusive := Idle;
      WedgedIsUnrecoverable(View());
    }

    /** First poll of the connect future: the guard is created armed. */
    method ArmGuard(epoch: nat)
      requires Valid() && ConnectAt(View(), epoch, Spawned)
      modifies this
      ensures Valid() && View() == Step(old(View()), ConnectPoll(epoch))
      ensures phase.Connecting? && inner.None? && epoch == |connects| - 1
    {
      ghost var before := View();
      StepInv(before, ConnectPoll(epoch));
      connects := connects[epoch := Awaiting];
    }

    /** `inner.store(Some(client))`, then disarm: it replaces no client and goes with its own limiter. */
    method StoreClient(epoch: nat)
      requires Valid() && ConnectAt(View(), epoch, Awaiting)
      modifies this
      ensures Valid() && View() == Step(old(View()), ConnectSucceed(epoch))
      ensures old(inner).None? && inner == Some(epoch) && limiter == OfEpoch(epoch) && phase.Connecting?
    {
      ghost var before := View();
      StepInv(before, ConnectSucceed(epoch));
      inner := Some(epoch);
      connects := connects[epoch := InnerStored];
    }

    /** `state.store(CONNECTED)`: it replaces this connect's own `Connecting`. */
    method PublishConnected(epoch: nat)
      requires Valid() && ConnectAt(View(), epoch, InnerStored)
      modifies this
      ensures Valid() && View() == Step(old(View()), ConnectPublish(epoch))
      ensures old(phase).Connecting? && phase.Connected? && inner == Some(epoch) && limiter == OfEpoch(epoch)
    {
      ghost var before := View();
      StepInv(before, ConnectPublish(epoch));
      phase := Connected;
      connects := connects[epoch := ConnectEnded];
    }

    /** The error arm of the connect future: disarm, then `state.store(DISCONNECTED)` over its own `Connecting`. */
    method FailConnect(epoch: nat)
      requires Valid() && ConnectAt(View(), epoch, Awaiting)
      modifies this
      ensures Valid() && View() == Step(old(View()), ConnectFail(epoch))
      ensures old(phase).Connecting? && phase.Disconnected? && inner.None?
    {
      ghost var before := View();
      StepInv(before, ConnectFail(epoch));
      connects := connects[epoch := ConnectEnded];
      phase := Disconnected;
    }

    /** `Drop` of the armed guard: its compare-exchange always finds this connect's own `Connecting`. */
    method DropGuard(epoch: nat)
      requires Valid() && ConnectAt(View(), epoch, Awaiting)
      modifies this
      ensures Valid() && View() == Step(old(View()), ConnectCancel(epoch))
      ensures old(phase).Connecting? && phase.Disconnected? && inner.None?
    {
      ghost var before := View();
      StepInv(before, ConnectCancel(epoch));
      if phase == Connecting {
        phase := Disconnected;
      }
      connects := connects[epoch := ConnectEnded];
    }

    /** The future is dropped before its first poll, when no guard exists: `Connecting` stays, for ever. */
    method DropUnpolled(epoch: nat)
      requires Valid() && ConnectAt(View(), epoch, Spawned)
      modifies this
      ensures Valid() && View() == Step(old(View()), ConnectDropUnpolled(epoch))
      ensures phase.Connecting? && !Recoverable(View())
    {
      ghost var before := View();
      StepInv(before, ConnectDropUnpolled(epoch));
      connects := connects[epoch := Orphaned];
      WedgedIsUnrecoverable(View());
    }

    // ---- close ----------------------------------------------------------------------------

    /** The load of `prepare_close`: a no-op, an error, or the go-ahead with a client to close. */
    method BeginClose() returns (r: Result<bool, Phase>)
      requires Valid() && exclusive.Idle? && NoBorrow(View())
      modifies this
      ensures Valid() && View() == Step(old(View()), CloseCheck)
      ensures r == match old(phase)
                   case Connecting => Failure(Connecting)
                   case Connected => Success(true)
                   case _ => Success(false)
      ensures r == Success(true) ==> inner.Some?
      ensures r != Success(true) ==> View() == old(View())
    {
      ghost var before := View();
      StepInv(before, CloseCheck);
      match phase {
        case Disconnected => r := Success(false);
        case Closing => r := Success(false);
        case Connecting => r := Failure(Connecting);
        case Connected =>
          exclusive := CloseChecked;
          r := Success(true);
      }
    }

    /** `state.store(CLOSING)`, a separate step after the load: the loaded `Connected` is still there to replace. */
    method StoreClosing()
      requires Valid() && exclusive.CloseChecked?
      modifies this
      ensures Valid() && View() == Step(old(View()), CloseStore)
      ensures old(phase).Connected? && phase.Closing? && inner.Some?
    {
      ghost var before := View();
      StepInv(before, CloseStore);
      phase := Closing;
      exclusive := CloseStored;
    }

    /** `inner.swap(None)` always takes a client out. */
    method SwapClient()
      requires Valid() && exclusive.CloseStored?
      modifies this
      ensures Valid() && View() == Step(old(View()), CloseSwap)
      ensures old(inner).Some? && inner.None? && exclusive == CloseSwapped(old(inner))
    {
      ghost var before := View();
      StepInv(before, CloseSwap);
      exclusive := CloseSwapped(inner);
      inner := None;
    }

    /** The limiter is reset and the close future handed out; operations in flight stay within their own limits. */
    method SpawnClose() returns (n: nat)
      requires Valid() && exclusive.CloseSwapped?
      modifies this
      ensures Valid() && View() == Step(old(View()), CloseReset)
      ensures n == old(|closes|) && closes[n..] == [CloseRunning(old(exclusive).client)] && limiter.Disabled?
      ensures forall e: nat :: e < |connects| ==> WithinLimit(e)
    {
      ghost var before := View();
      StepInv(before, CloseReset);
      n := |closes|;
      limiter := Disabled;
      closes := closes + [CloseRunning(exclusive.client)];
      exclusive := Idle;
    }

    /** The close future's unconditional store replaces its own `Closing`. */
    method FinishClose(n: nat)
      requires Valid() && n < |closes| && closes[n].CloseRunning?
      modifies this
      ensures Valid() && View() == Step(old(View()), CloseFinish(n))
      ensures old(phase).Closing? && phase.Disconnected? && inner.None? && n == |closes| - 1
    {
      ghost var before := View();
      StepInv(before, CloseFinish(n));
      phase := Disconnected;
      closes := closes[n := CloseEnded];
    }

    /** The close future is dropped at its await: `Closing` stays, for ever. */
    method DropClose(n: nat)
      requires Valid() && n < |closes| && closes[n].CloseRunning?
      modifies this
      ensures Valid() && View() == Step(old(View()), CloseDrop(n))
      ensures phase.Closing? && !Recoverable(View())
    {
      ghost var before := View();
      StepInv(before, CloseDrop(n));
      closes := closes[n := CloseAbandoned];
      WedgedIsUnrecoverable(View());
    }

    // ---- Gated operations -----------------------------------------------------------------

    /** `get_client` at the start of a gated operation. */
    method GetClient() returns (r: Result<nat, ()>)
      requires Valid() && exclusive.Idle?
      modifies this
      ensures Valid() && View() == Step(old(View()), OperationLoad)
      ensures r == if old(inner).Some? then Success(old(|operations|)) else Failure(())
      ensures r.Success? ==> limiter == OfEpoch(inner.value)
    {
      ghost var before := View();
      StepInv(before, OperationLoad);
      match inner {
        case None => r := Failure(());
        case Some(client) =>
          r := Success(|operations|);
          operations := operations + [Loaded(client)];
      }
    }

    /** `self.limiter.clone()`: still the limiter of the client loaded before, as the borrow keeps `close` out. */
    method CaptureLimiter(i: nat)
      requires Valid() && i < |operations| && operations[i].Loaded?
      modifies this
      ensures Valid() && View() == Step(old(View()), OperationCapture(i))
      ensures operations[i] == Captured(old(operations[i]).client, OfEpoch(old(operations[i]).client))
    {
      ghost var before := View();
      StepInv(before, OperationCapture(i));
      assert Paired(before, operations[i]);
      operations := operations[i := Captured(operations[i].client, limiter)];
    }

    /** The semaphore's part of `acquire_named`: admitted exactly when the capacity is zero or a permit is free. */
    method TryAcquire(i: nat) returns (acquired: bool)
      requires Valid() && i < |operations| && operations[i].Captured?
      modifies this
      ensures Valid() && View() == Step(old(View()), OperationAcquire(i))
      ensures var e := old(operations)[i].client;
              && e < |old(permits)| && e < |capacities| && capacities == old(capacities)
              && (acquired <==> capacities[e] == 0 || old(permits)[e] > 0)
      ensures !acquired ==> View() == old(View())
    {
      ghost var before := View();
      StepInv(before, OperationAcquire(i));
      WaitingIsPaired(before, i);
      var op := operations[i];
      var e := op.limiter.epoch;
      if capacities[e] == 0 {
        operations := operations[i := InFlight(op.client, op.limiter, false)];
        acquired := true;
      } else if permits[e] > 0 {
        permits := permits[e := permits[e] - 1];
        operations := operations[i := InFlight(op.client, op.limiter, true)];
        acquired := true;
      } else {
        acquired := false;
      }
    }

    /**
     One poll of `acquire_named` under its timer: an operation that is not admitted gives up, without
     a permit, once the limiter's timer has run out, and it waits only while its client is at its limit.
     */
    method AcquireNamed(i: nat, expired: bool) returns (r: Acquisition)
      requires Valid() && i < |operations| && operations[i].Captured?
      modifies this
      ensures Valid()
      ensures View() == Step(old(View()), if r.TimedOut? then OperationEnd(i) else OperationAcquire(i))
      ensures var e := old(operations)[i].client;
              && e < |old(permits)| && e < |old(capacities)|
              && (r.Acquired? <==> old(capacities)[e] == 0 || old(permits)[e] > 0)
              && (r.TimedOut? <==> !r.Acquired? && expired)
              && (!r.Acquired? ==> permits == old(permits) && InFlightOn(old(operations), e) == old(capacities)[e])
    {
      ghost var before := View();
      WaitingIsPaired(before, i);
      var acquired := TryAcquire(i);
      if acquired {
        r := Acquired;
      } else if expired {
        StepInv(before, OperationEnd(i));
        EndingStep(before, i);
        operations := operations[i := OperationEnded];
        assert View() == Step(before, OperationEnd(i));
        r := TimedOut;
      } else {
        r := StillWaiting;
      }
    }

    /** The operation's future ends in any way; a permit it holds goes back to its own client's semaphore. */
    method EndOperation(i: nat)
      requires Valid() && i < |operations| && (operations[i].Captured? || operations[i].InFlight?)
      modifies this
      ensures Valid() && View() == Step(old(View()), OperationEnd(i))
      ensures WithinLimit(old(operations)[i].client)
      ensures InFlightOn(operations, old(operations)[i].client)
           == InFlightOn(old(operations), old(operations)[i].client) - if old(operations)[i].InFlight? then 1 else 0
    {
      ghost var before := View();
      StepInv(before, OperationEnd(i));
      EndingFreesOne(before, i);
      EndingStep(before, i);
      if operations[i].InFlight? && operations[i].permit {
        var e := operations[i].limiter.epoch;
        permits := permits[e := permits[e] + 1];
      }
      operations := operations[i := OperationEnded];
      assert View() == Step(before, OperationEnd(i));
    }

    // ---- Whole runs -----------------------------------------------------------------------

    /** One event of the machine, by the method that stands for it; a disabled event does nothing. */
    method Perform(ev: Event)
      requires Valid()
      modifies this
      ensures Valid() && View() == Step(old(View()), ev)
    {
      if IsConnectEvent(ev) {
        PerformConnect(ev);
      } else if IsCloseEvent(ev) {
        PerformClose(ev);
      } else {
        PerformOperation(ev);
      }
    }

    method PerformConnect(ev: Event)
      requires Valid() && IsConnectEvent(ev)
      modifies this
      ensures Valid() && View() == Step(old(View()), ev)
    {
      match ev {
        case ConnectCas(maxOps) =>
          if exclusive.Idle? && NoBorrow(View()) { var _ := BeginConnect(maxOps); }
        case ConnectInstall =>
          if exclusive.ConnectSwapped? && exclusive.maxOps <= MAX_PERMITS { var _ := InstallLimiter(); }
        case ConnectAbort =>
          if exclusive.ConnectSwapped? && exclusive.maxOps > MAX_PERMITS { AbortConnect(); }
        case ConnectPoll(e) =>
          if ConnectAt(View(), e, Spawned) { ArmGuard(e); }
        case ConnectSucceed(e) =>
          if ConnectAt(View(), e, Awaiting) { StoreClient(e); }
        case ConnectPublish(e) =>
          if ConnectAt(View(), e, InnerStored) { PublishConnected(e); }
        case ConnectFail(e) =>
          if ConnectAt(View(), e, Awaiting) { FailConnect(e); }
        case ConnectCancel(e) =>
          if ConnectAt(View(), e, Awaiting) { DropGuard(e); }
        case ConnectDropUnpolled(e) =>
          if ConnectAt(View(), e, Spawned) { DropUnpolled(e); }
      }
    }

    method PerformClose(ev: Event)
      requires Valid() && IsCloseEvent(ev)
      modifies this
      ensures Valid() && View() == Step(old(View()), ev)
    {
      match ev {
        case CloseCheck =>
          if exclusive.Idle? && NoBorrow(View()) { var _ := BeginClose(); }
        case CloseStore =>
          if exclusive.CloseChecked? { StoreClosing(); }
        case CloseSwap =>
          if exclusive.CloseStored? { SwapClient(); }
        case CloseReset =>
          if exclusive.CloseSwapped? { var _ := SpawnClose(); }
        case CloseFinish(n) =>
          if n < |closes| && closes[n].CloseRunning? { FinishClose(n); }
        case CloseDrop(n) =>
          if n < |closes| && closes[n].CloseRunning? { DropClose(n); }
      }
    }

    method PerformOperation(ev: Event)
      requires Valid() && !IsConnectEvent(ev) && !IsCloseEvent(ev)
      modifies this
      ensures Valid() && View() == Step(old(View()), ev)
    {
      match ev {
        case OperationLoad =>
          if exclusive.Idle? { var _ := GetClient(); }
        case OperationCapture(i) =>
          if i < |operations| && operations[i].Loaded? { CaptureLimiter(i); }
        case OperationAcquire(i) =>
          if i < |operations| && operations[i].Captured? { var _ := AcquireNamed(i, false); }
        case OperationEnd(i) =>
          if i < |operations| && (operations[i].Captured? || operations[i].InFlight?) { EndOperation(i); }
      }
    }
  }

  lemma WaitingIsPaired(s: State, i: nat)
    requires Inv(s) && i < |s.operations| && s.operations[i].Captured?
    ensures var op := s.operations[i];
            && op.limiter == OfEpoch(op.client)
            && op.client < |s.permits| && op.client < |s.capacities|
            && (s.capacities[op.client] > 0
                ==> s.permits[op.client] + InFlightOn(s.operations, op.client) == s.capacities[op.client])
  {
    assert Paired(s, s.operations[i]);
  }

  lemma EndingStep(s: State, i: nat)
    requires Inv(s) && i < |s.operations| && (s.operations[i].Captured? || s.operations[i].InFlight?)
    ensures var op := s.operations[i];
            && op.client < |s.permits|
            && Step(s, OperationEnd(i)) == s.(
                 operations := s.operations[i := OperationEnded],
                 permits := if op.InFlight? && op.permit then s.permits[op.client := s.permits[op.client] + 1]
                   else s.permits)
  {
    assert Paired(s, s.operations[i]);
  }

  lemma EndingFreesOne(s: State, i: nat)
    requires Inv(s) && i < |s.operations| && (s.operations[i].Captured? || s.operations[i].InFlight?)
    ensures var op := s.operations[i];
            && op.limiter == OfEpoch(op.client) && op.client < |s.permits| == |s.capacities|
            && InFlightOn(Step(s, OperationEnd(i)).operations, op.client)
               == InFlightOn(s.operations, op.client) - if op.InFlight? then 1 else 0
  {
    assert Paired(s, s.operations[i]);
    InFlightUpdate(s.operations, i, OperationEnded, s.operations[i].client);
  }

  lemma WedgedIsUnrecoverable(s: State)
    requires Inv(s) && Wedged(s)
    ensures !Recoverable(s)
  {
    forall more
      ensures !Run(s, more).phase.Disconnected?
    {
      WedgedForever(s, more);
    }
  }

  /** Every run of the machine is a run of the object, and its limits hold throughout. */
  method Drive(events: seq<Event>) returns (client: PyAsyncClient)
    ensures fresh(client) && client.Valid() && client.View() == Run(INITIAL, events)
    ensures forall e: nat :: e < |client.capacities| ==> client.WithinLimit(e)
    ensures client.inner.Some? ==> client.limiter == OfEpoch(client.inner.value)
  {
    client := new PyAsyncClient();
    for n := 0 to |events|
      invariant fresh(client) && client.Valid() && client.View() == Run(INITIAL, events[..n])
    {
      RunPrefix(events, n);
      client.Perform(events[n]);
    }
    assert events[..|events|] == events;
  }

  lemma RunPrefix(events: seq<Event>, n: nat)
    requires n < |events|
    ensures Run(INITIAL, events[..n + 1]) == Step(Run(INITIAL, events[..n]), events[n])
  {
    assert events[..n + 1] == events[..n] + [events[n]];
    RunConcat(INITIAL, events[..n], [events[n]]);
    assert [events[n]][1..] == [];
    assert Run(Run(INITIAL, events[..n]), [events[n]]) == Step(Run(INITIAL, events[..n]), events[n]);
  }
}
