/** The asynchronous interrupt-IN transfer of the USB host controller: pollers, the channel interrupt, the
    in-flight watchdog and its unlocked recovery as atomic steps
    (src/drivers/usb/bcm2708_usb.rs, `AsyncInterruptState` and its users). */
module UsbInterrupt {
  import opened Basics
  import opened Bits

  const INTERRUPT_CHANNEL: nat := 1
  const MAX_SPLIT_COMPLETE_RETRIES: nat := 4
  const MAX_INTERRUPT_ERROR_RETRIES: nat := 8
  const HALF_RANGE: nat := 0x8000_0000_0000_0000

  // hcint, as the controller reports it
  const HCINT_XFER_COMPLETE: bv32 := 1 << 0
  const HCINT_AHB_ERROR: bv32 := 1 << 2
  const HCINT_STALL: bv32 := 1 << 3
  const HCINT_NAK: bv32 := 1 << 4
  const HCINT_ACK: bv32 := 1 << 5
  const HCINT_NYET: bv32 := 1 << 6
  const HCINT_XACT_ERROR: bv32 := 1 << 7
  const HCINT_BABBLE_ERROR: bv32 := 1 << 8
  const HCINT_FRAME_OVERRUN: bv32 := 1 << 9
  const HCINT_DATA_TOGGLE_ERROR: bv32 := 1 << 10
  const HCINT_ERROR_MASK: bv32 :=
    HCINT_AHB_ERROR | HCINT_STALL | HCINT_XACT_ERROR | HCINT_BABBLE_ERROR | HCINT_FRAME_OVERRUN | HCINT_DATA_TOGGLE_ERROR

  datatype PacketId = Data0 | Data1 | Setup
  {
    function Toggled(): PacketId
    {
      match this
      case Data0 => Data1
      case Data1 => Data0
      case Setup => Setup
    }
  }

  datatype SplitPhase = NoSplit | Start | Complete

  datatype PollPhase = Idle | InFlight | Recovering

  datatype Speed = Low | Full | High

  datatype Route = Route(address: nat, speed: Speed, parentHub: nat, parentPort: nat, parentHubSpeed: Speed)
  {
    predicate UsesSplit()
    {
      parentHub != 0 && parentPort != 0 && parentHubSpeed == High && speed != High
    }
  }

  type u16 = x: nat | x < 0x1_0000

  /** `InterruptInTransfer`: what matters of it here. */
  datatype Transfer = Transfer(
    route: Route, endpoint: nat, isIn: bool, isInterrupt: bool, maxPacketSize: u16,
    expectedLen: nat, bufferLen: nat, bufferPhys: nat)

  datatype UsbError = InvalidEndpoint | BufferTooSmall | Unsupported | Busy | InvalidState | Stalled | Disconnected | HardwareFault

  datatype UsbResult = Ok | Err(error: UsbError)

  function Validate(t: Transfer): UsbResult
  {
    if !t.isIn || !t.isInterrupt then Err(InvalidEndpoint)
    else if t.expectedLen == 0 || t.expectedLen > t.bufferLen then Err(BufferTooSmall)
    else Ok
  }

  function WrappingSub(a: u64, b: u64): u64
  {
    if a >= b then a - b else a + U64_LIMIT - b
  }

  function WrappingAdd(a: u64, b: u64): u64
  {
    if a + b < U64_LIMIT then a + b else a + b - U64_LIMIT
  }

  // ----- the state of one transfer -----

  datatype Async = Async(
    transfer: Transfer, packetId: PacketId, splitPhase: SplitPhase, phase: PollPhase, lastRequestLen: nat,
    intervalTicks: u64, nextDue: u64, splitRetries: nat, inflightSince: u64, errorRetries: nat)

  function FreshSplit(r: Route): SplitPhase
  {
    if r.UsesSplit() then Start else NoSplit
  }

  function NewAsync(t: Transfer, interval: u64, now: u64): Async
  {
    Async(t, Data0, FreshSplit(t.route), Idle, 0, interval, now, 0, now, 0)
  }

  function ResetSplit(a: Async): Async
  {
    a.(splitPhase := FreshSplit(a.transfer.route), splitRetries := 0)
  }

  function ToIdle(a: Async, now: u64): Async
  {
    ResetSplit(a.(phase := Idle, nextDue := WrappingAdd(now, a.intervalTicks)))
  }

  predicate IsDue(a: Async, now: u64)
  {
    WrappingSub(now, a.nextDue) < HALF_RANGE
  }

  /** `AsyncInterruptState`, changed in place. */
  class AsyncInterruptState {
    const transfer: Transfer
    const intervalTicks: u64
    var packetId: PacketId
    var splitPhase: SplitPhase
    var pollPhase: PollPhase
    var lastRequestLen: nat
    var nextDue: u64
    var splitCompleteRetries: nat
    var inflightSince: u64
    var errorRetries: nat

    function View(): Async
      reads this
    {
      Async(transfer, packetId, splitPhase, pollPhase, lastRequestLen, intervalTicks, nextDue, splitCompleteRetries,
            inflightSince, errorRetries)
    }

    constructor (transfer: Transfer, intervalTicks: u64, now: u64)
      ensures View() == NewAsync(transfer, intervalTicks, now)
    {
      this.transfer := transfer;
      packetId := Data0;
      splitPhase := if transfer.route.UsesSplit() then Start else NoSplit;
      pollPhase := Idle;
      lastRequestLen := 0;
      this.intervalTicks := intervalTicks;
      nextDue := now;
      splitCompleteRetries := 0;
      inflightSince := now;
      errorRetries := 0;
    }

    method ResetSplitPhase()
      modifies this
      ensures View() == ResetSplit(old(View()))
    {
      splitPhase := if transfer.route.UsesSplit() then Start else NoSplit;
      splitCompleteRetries := 0;
    }

    method MarkIdleUntilNextInterval(now: u64)
      modifies this
      ensures View() == ToIdle(old(View()), now)
    {
      pollPhase := Idle;
      nextDue := WrappingAdd(now, intervalTicks);
      ResetSplitPhase();
    }
  }

  // ----- the controller -----

  /** A delivery to the handler: how many bytes, under which packet id, from which split phase. */
  datatype Delivery = Delivery(len: nat, packetId: PacketId, splitPhase: SplitPhase)

  /** The controller's view of the transfer, whether the channel interrupt is unmasked, whether a poller is inside
      the unlocked recovery; and, as history of the current transfer, its deliveries, the interrupts handled as a
      completed transaction and the transient errors since the last interrupt without error. */
  datatype Usb = Usb(
    channels: nat, timeout: u64, interrupt: Option<Async>, unmasked: bool, recovering: bool,
    delivered: seq<Delivery>, handled: nat, transientRun: nat)

  /** Arming the channel can only fail on a channel the core lacks or a buffer the bus cannot address; both are fixed. */
  predicate Startable(u: Usb, t: Transfer)
  {
    INTERRUPT_CHANNEL < u.channels && t.bufferPhys < 0x1_0000_0000
  }

  function Requested(t: Transfer): nat
  {
    Min(t.expectedLen, t.maxPacketSize)
  }

  function Armed(a: Async, now: u64): Async
  {
    a.(lastRequestLen := Requested(a.transfer), phase := InFlight, inflightSince := now)
  }

  /** `stop_interrupt_with_error`. */
  function Stopped(u: Usb): Usb
  {
    u.(interrupt := None, unmasked := false)
  }

  /** `start_interrupt_locked`, and the stop that follows when it fails. */
  function Started(u: Usb, a: Async, now: u64): Usb
  {
    if Startable(u, a.transfer) then u.(interrupt := Some(Armed(a, now)), unmasked := true) else Stopped(u)
  }

  function Quiet(u: Usb, a: Async, now: u64): Usb
  {
    u.(interrupt := Some(ToIdle(a, now)), unmasked := false)
  }

  datatype Step =
    | Submit(transfer: Transfer, interval: u64, now: u64)
    | Cancel(route: Route, endpoint: nat)
    | Poll(now: u64)
    | RecoveryEnds(now: u64)
    | ChannelIrq(hcint: bv32, connected: bool, remaining: nat, now: u64)
    | PortIrq(connected: bool)
    | DisconnectIrq

  function AfterSubmit(u: Usb, t: Transfer, interval: u64, now: u64): Usb
  {
    if Validate(t) != Ok || u.interrupt.Some? || !Startable(u, t) then u
    else
      u.(interrupt := Some(Armed(NewAsync(t, interval, now), now)), unmasked := true,
         delivered := [], handled := 0, transientRun := 0)
  }

  predicate CancelMatches(u: Usb, route: Route, endpoint: nat)
  {
    u.interrupt.Some? && u.interrupt.value.transfer.route == route && u.interrupt.value.transfer.endpoint == endpoint
  }

  function AfterPoll(u: Usb, now: u64): Usb
  {
    if u.interrupt.None? then u
    else
      var a := u.interrupt.value;
      match a.phase
      case Recovering => u
      case InFlight =>
        if u.timeout == 0 || WrappingSub(now, a.inflightSince) < u.timeout then u
        else u.(interrupt := Some(ResetSplit(a).(phase := Recovering)), unmasked := false, recovering := true)
      case Idle => if IsDue(a, now) then Started(u, a, now) else u
  }

  function AfterRecovery(u: Usb, now: u64): Usb
  {
    if u.interrupt.None? then u.(recovering := false)
    else u.(interrupt := Some(u.interrupt.value.(phase := Idle, nextDue := now)), recovering := false)
  }

  predicate IsError(hcint: bv32)
  {
    hcint & HCINT_ERROR_MASK != 0
  }

  predicate Transient(hcint: bv32, connected: bool)
  {
    && hcint & (HCINT_XACT_ERROR | HCINT_FRAME_OVERRUN | HCINT_DATA_TOGGLE_ERROR) != 0
    && hcint & (HCINT_STALL | HCINT_AHB_ERROR | HCINT_BABBLE_ERROR) == 0
    && connected
  }

  function ActualLen(a: Async, remaining: nat): nat
  {
    Min(if a.lastRequestLen >= remaining then a.lastRequestLen - remaining else 0, a.transfer.expectedLen)
  }

  function AfterErrorIrq(u: Usb, a: Async, hcint: bv32, connected: bool, now: u64): Usb
  {
    if !Transient(hcint, connected) then Stopped(u)
    else if a.errorRetries < MAX_INTERRUPT_ERROR_RETRIES then
      Quiet(u, a.(errorRetries := a.errorRetries + 1), now).(transientRun := u.transientRun + 1)
    else Stopped(u)
  }

  /** The data branch: the packet id toggles, the bytes go to the handler. */
  function AfterData(u: Usb, a: Async, remaining: nat, now: u64): Usb
  {
    var len := ActualLen(a, remaining);
    var log := if len > 0 then u.delivered + [Delivery(len, a.packetId, a.splitPhase)] else u.delivered;
    Quiet(u, a.(packetId := a.packetId.Toggled()), now).(delivered := log, handled := u.handled + 1)
  }

  function AfterGoodIrq(u: Usb, a: Async, hcint: bv32, remaining: nat, now: u64): Usb
  {
    if hcint & (HCINT_NAK | HCINT_NYET) != 0 then
      if a.transfer.route.UsesSplit() && a.splitPhase == Complete && hcint & HCINT_NYET != 0
         && a.splitRetries < MAX_SPLIT_COMPLETE_RETRIES
      then Started(u, a.(splitRetries := a.splitRetries + 1), now)
      else Quiet(u, a, now)
    else if a.transfer.route.UsesSplit() && a.splitPhase == Start then
      Started(u, a.(splitPhase := Complete, splitRetries := 0), now)
    else AfterData(u, a, remaining, now)
  }

  function AfterChannelIrq(u: Usb, hcint: bv32, connected: bool, remaining: nat, now: u64): Usb
  {
    if hcint == 0 then u
    else if u.interrupt.None? then u.(unmasked := false)
    else
      var a := u.interrupt.value;
      if a.phase == Recovering then u
      else if IsError(hcint) then AfterErrorIrq(u, a, hcint, connected, now)
      else AfterGoodIrq(u.(transientRun := 0), a.(errorRetries := 0), hcint, remaining, now)
  }

  function Apply(u: Usb, s: Step): Usb
  {
    match s
    case Submit(t, interval, now) => AfterSubmit(u, t, interval, now)
    case Cancel(route, endpoint) => if CancelMatches(u, route, endpoint) then Stopped(u) else u
    case Poll(now) => AfterPoll(u, now)
    case RecoveryEnds(now) => AfterRecovery(u, now)
    case ChannelIrq(hcint, connected, remaining, now) => AfterChannelIrq(u, hcint, connected, remaining, now)
    case PortIrq(connected) => if connected then u else Stopped(u)
    case DisconnectIrq => Stopped(u)
  }

  // ----- the source's methods, tied to the steps -----

  class Controller {
    const channelCount: nat
    const inflightTimeout: u64
    var interrupt: AsyncInterruptState?
    var unmasked: bool
    var recoveryPending: bool
    ghost var delivered: seq<Delivery>
    ghost var handled: nat
    ghost var transientRun: nat

    ghost function State(): Usb
      reads this, interrupt
    {
      Usb(channelCount, inflightTimeout, if interrupt == null then None else Some(interrupt.View()), unmasked,
          recoveryPending, delivered, handled, transientRun)
    }

    constructor (channelCount: nat, inflightTimeout: u64)
      ensures State() == Usb(channelCount, inflightTimeout, None, false, false, [], 0, 0)
    {
      this.channelCount := channelCount;
      this.inflightTimeout := inflightTimeout;
      interrupt := null;
      unmasked := false;
      recoveryPending := false;
      delivered, handled, transientRun := [], 0, 0;
    }

    method StopInterruptWithError()
      modifies this
      ensures State() == Stopped(old(State()))
    {
      unmasked := false;
      interrupt := null;
    }

    /** Programs the channel for `state`; an error leaves the channel as it was. */
    method StartInterruptLocked(state: AsyncInterruptState, now: u64) returns (ok: bool)
      modifies `unmasked, state
      ensures ok <==> INTERRUPT_CHANNEL < channelCount && state.transfer.bufferPhys < 0x1_0000_0000
      ensures ok ==> unmasked && state.View() == Armed(old(state.View()), now)
      ensures !ok ==> unmasked == old(unmasked)
    {
      state.lastRequestLen := Min(state.transfer.expectedLen, state.transfer.maxPacketSize);
      if state.transfer.bufferPhys >= 0x1_0000_0000 { return false; }
      if INTERRUPT_CHANNEL >= channelCount { return false; }
      unmasked := true;
      state.pollPhase := InFlight;
      state.inflightSince := now;
      ok := true;
    }

    method StartOrStop(state: AsyncInterruptState, now: u64)
      requires interrupt == state
      modifies this, state
      ensures State() == Started(old(State()), old(state.View()), now)
    {
      var ok := StartInterruptLocked(state, now);
      if !ok { StopInterruptWithError(); }
    }

    method SubmitInterruptIn(t: Transfer, interval: u64, now: u64) returns (r: UsbResult)
      modifies this
      ensures State() == AfterSubmit(old(State()), t, interval, now)
      ensures r == Ok <==> Validate(t) == Ok && old(interrupt) == null && Startable(old(State()), t)
      ensures (!t.isIn || !t.isInterrupt) ==> r == Err(InvalidEndpoint)
      ensures t.isIn && t.isInterrupt && !(0 < t.expectedLen <= t.bufferLen) ==> r == Err(BufferTooSmall)
      ensures Validate(t) == Ok && old(interrupt) != null ==> r == Err(Busy)
      ensures Validate(t) == Ok && old(interrupt) == null && !Startable(old(State()), t) ==> r == Err(Unsupported)
    {
      r := Validate(t);
      if r != Ok { return; }
      if interrupt != null { return Err(Busy); }
      var state := new AsyncInterruptState(t, interval, now);
      var ok := StartInterruptLocked(state, now);
      if !ok { return Err(Unsupported); }
      interrupt := state;
      delivered, handled, transientRun := [], 0, 0;
    }

    method CancelInterruptIn(route: Route, endpoint: nat) returns (r: UsbResult)
      modifies this
      ensures State() == Apply(old(State()), Cancel(route, endpoint))
      ensures r == if CancelMatches(old(State()), route, endpoint) then Ok else Err(InvalidState)
    {
      if interrupt != null && interrupt.transfer.route == route && interrupt.transfer.endpoint == endpoint {
        unmasked := false;
        interrupt := null;
        return Ok;
      }
      return Err(InvalidState);
    }

    /** The locked part of `service_interrupt_polls`; the recovery it may ask for ends in a step of its own. */
    method ServiceInterruptPolls(now: u64) returns (needsRecovery: bool)
      modifies this, interrupt
      ensures State() == AfterPoll(old(State()), now)
      ensures needsRecovery ==> recoveryPending
    {
      needsRecovery := false;
      if interrupt == null { return; }
      match interrupt.pollPhase {
        case Recovering => return;
        case InFlight =>
          if inflightTimeout == 0 || WrappingSub(now, interrupt.inflightSince) < inflightTimeout { return; }
          unmasked := false;
          interrupt.ResetSplitPhase();
          interrupt.pollPhase := Recovering;
          recoveryPending := true;
          needsRecovery := true;
        case Idle =>
          if !IsDue(interrupt.View(), now) { return; }
          StartOrStop(interrupt, now);
      }
    }

    /** The end of `recover_wedged_interrupt_channel`. */
    method RecoverWedgedInterruptChannel(now: u64)
      modifies this, interrupt
      ensures State() == AfterRecovery(old(State()), now)
    {
      if interrupt != null {
        interrupt.pollPhase := Idle;
        interrupt.nextDue := now;
      }
      recoveryPending := false;
    }

    method HandlePortInterrupt(connected: bool)
      modifies this
      ensures State() == Apply(old(State()), PortIrq(connected))
    {
      if !connected { StopInterruptWithError(); }
    }

    method BackToIdle(state: AsyncInterruptState, now: u64)
      requires interrupt == state
      modifies `unmasked, state
      ensures State() == Quiet(old(State()), old(state.View()), now)
    {
      state.MarkIdleUntilNextInterval(now);
      unmasked := false;
    }

    method HandleInterruptChannelIrq(hcint: bv32, connected: bool, remaining: nat, now: u64)
      modifies this, interrupt
      ensures State() == AfterChannelIrq(old(State()), hcint, connected, remaining, now)
    {
      if hcint == 0 { return; }
      if interrupt == null {
        unmasked := false;
        return;
      }
      var state: AsyncInterruptState := interrupt;
      if state.pollPhase == Recovering { return; }
      if hcint & HCINT_ERROR_MASK != 0 {
        HandleErrorIrq(state, hcint, connected, now);
        return;
      }
      state.errorRetries := 0;
      transientRun := 0;
      HandleGoodIrq(state, hcint, remaining, now);
    }

    method HandleErrorIrq(state: AsyncInterruptState, hcint: bv32, connected: bool, now: u64)
      requires interrupt == state
      modifies this, state
      ensures State() == AfterErrorIrq(old(State()), old(state.View()), hcint, connected, now)
    {
      var transient :=
        hcint & (HCINT_XACT_ERROR | HCINT_FRAME_OVERRUN | HCINT_DATA_TOGGLE_ERROR) != 0
        && hcint & (HCINT_STALL | HCINT_AHB_ERROR | HCINT_BABBLE_ERROR) == 0
        && connected;
      if transient && state.errorRetries < MAX_INTERRUPT_ERROR_RETRIES {
        state.errorRetries := state.errorRetries + 1;
        transientRun := transientRun + 1;
        BackToIdle(state, now);
        return;
      }
      StopInterruptWithError();
    }

    method HandleGoodIrq(state: AsyncInterruptState, hcint: bv32, remaining: nat, now: u64)
      requires interrupt == state
      modifies this, state
      ensures State() == AfterGoodIrq(old(State()), old(state.View()), hcint, remaining, now)
    {
      var split := state.transfer.route.UsesSplit();
      if hcint & (HCINT_NAK | HCINT_NYET) != 0 {
        if split && state.splitPhase == Complete && hcint & HCINT_NYET != 0
           && state.splitCompleteRetries < MAX_SPLIT_COMPLETE_RETRIES {
          state.splitCompleteRetries := state.splitCompleteRetries + 1;
          StartOrStop(state, now);
        } else {
          BackToIdle(state, now);
        }
        return;
      }
      if split && state.splitPhase == Start {
        state.splitPhase := Complete;
        state.splitCompleteRetries := 0;
        StartOrStop(state, now);
        return;
      }
      var received := if state.lastRequestLen >= remaining then state.lastRequestLen - remaining else 0;
      var actualLen := Min(received, state.transfer.expectedLen);
      if actualLen > 0 {
        delivered := delivered + [Delivery(actualLen, state.packetId, state.splitPhase)];
      }
      handled := handled + 1;
      state.packetId := state.packetId.Toggled();
      BackToIdle(state, now);
    }
  }

  // ----- what every step keeps -----

  /** Data came from a whole transaction: never from a start split, never empty, never more than asked. */
  predicate DeliveredWell(t: Transfer, d: Delivery)
  {
    0 < d.len <= Requested(t) && d.packetId != Setup && d.splitPhase == if t.route.UsesSplit() then Complete else NoSplit
  }

  /** One transfer, between steps. */
  ghost predicate GoodTransfer(u: Usb, a: Async)
  {
    && Startable(u, a.transfer) && Validate(a.transfer) == Ok
    && (u.unmasked <==> a.phase == InFlight)
    && (u.recovering <==> a.phase == Recovering)
    && (a.phase != InFlight ==> a.splitPhase == FreshSplit(a.transfer.route) && a.splitRetries == 0)
    && (a.splitPhase == NoSplit <==> !a.transfer.route.UsesSplit())
    && (a.splitPhase != Complete ==> a.splitRetries == 0) && a.splitRetries <= MAX_SPLIT_COMPLETE_RETRIES
    && a.packetId == (if u.handled % 2 == 0 then Data0 else Data1)
    && a.errorRetries == u.transientRun <= MAX_INTERRUPT_ERROR_RETRIES
    && a.lastRequestLen == Requested(a.transfer)
    && (forall d | d in u.delivered :: DeliveredWell(a.transfer, d))
  }

  ghost predicate Inv(u: Usb)
  {
    match u.interrupt
    case None => !u.unmasked
    case Some(a) => GoodTransfer(u, a)
  }

  /** A second submission must not overtake a recovery still in progress; everything else may happen at any time,
      stray channel interrupts and stray ends of recovery by a poller that is inside one included. */
  predicate Legal(u: Usb, s: Step)
  {
    match s
    case Submit(_, _, _) => !u.recovering
    case RecoveryEnds(_) => u.recovering
    case _ => true
  }

  lemma StepKeepsInv(u: Usb, s: Step)
    requires Inv(u) && Legal(u, s)
    ensures Inv(Apply(u, s))
  {
    if s.ChannelIrq? && u.interrupt.Some? {
      ChannelIrqKeepsInv(u, u.interrupt.value, s.hcint, s.connected, s.remaining, s.now);
    }
  }

  lemma ChannelIrqKeepsInv(u: Usb, a: Async, hcint: bv32, connected: bool, remaining: nat, now: u64)
    requires GoodTransfer(u, a) && u.interrupt == Some(a)
    ensures Inv(AfterChannelIrq(u, hcint, connected, remaining, now))
  {
    hide Transient, IsError;
    if a.phase != Recovering {
      GoodIrqKeepsInv(u.(transientRun := 0), a.(errorRetries := 0), hcint, remaining, now);
    }
  }

  lemma GoodIrqKeepsInv(u: Usb, a: Async, hcint: bv32, remaining: nat, now: u64)
    requires GoodTransfer(u, a) && a.phase != Recovering
    ensures Inv(AfterGoodIrq(u, a, hcint, remaining, now))
  {
  }

  ghost predicate AllLegal(u: Usb, steps: seq<Step>)
    decreases |steps|
  {
    steps == [] || (Legal(u, steps[0]) && AllLegal(Apply(u, steps[0]), steps[1..]))
  }

  function Run(u: Usb, steps: seq<Step>): Usb
    decreases |steps|
  {
    if steps == [] then u else Run(Apply(u, steps[0]), steps[1..])
  }

  /** Over every run: the interrupt is unmasked exactly in flight, an idle transfer has a fresh split phase, the packet
      id is the parity of the interrupts handled as data, data never comes from a start split, and retries stay bounded. */
  lemma {:induction false} RunKeepsInv(u: Usb, steps: seq<Step>)
    requires Inv(u) && AllLegal(u, steps)
    ensures Inv(Run(u, steps))
    decreases |steps|
  {
    if steps != [] {
      StepKeepsInv(u, steps[0]);
      RunKeepsInv(Apply(u, steps[0]), steps[1..]);
    }
  }

  // ----- packet ids against completed transactions -----

  predicate NoError(hcint: bv32)
  {
    !IsError(hcint) && hcint & (HCINT_NAK | HCINT_NYET) == 0
  }

  predicate ReportsCompletion(hcint: bv32)
  {
    hcint & HCINT_XFER_COMPLETE != 0
  }

  /** The handler takes this interrupt for a completed transaction. It never looks at the transfer-complete bit. */
  predicate ReachesData(u: Usb, s: Step)
  {
    && s.ChannelIrq? && s.hcint != 0 && u.interrupt.Some? && u.interrupt.value.phase != Recovering
    && NoError(s.hcint)
    && !(u.interrupt.value.transfer.route.UsesSplit() && u.interrupt.value.splitPhase == Start)
  }

  /** What the device makes of the current transfer: how many of its data transactions were reported complete, and
      whether the one a recovery took over still can be. */
  datatype History = History(completed: nat, wedged: bool)

  /** The channel is programmed for a data transaction (not a start split) that has not been reported complete. */
  predicate Open(u: Usb, h: History)
  {
    && u.interrupt.Some?
    && match u.interrupt.value.phase
       case InFlight => u.interrupt.value.splitPhase != Start
       case Recovering => h.wedged
       case Idle => false
  }

  /** The controller reports that transaction complete, whatever the handler does with the interrupt. */
  predicate Reported(u: Usb, h: History, s: Step)
  {
    s.ChannelIrq? && ReportsCompletion(s.hcint) && Open(u, h)
  }

  function Observed(u: Usb, h: History, s: Step): History
  {
    if u.interrupt.None? || Apply(u, s).interrupt.None? then History(0, false)
    else History(if Reported(u, h, s) then h.completed + 1 else h.completed, Open(u, h) && !Reported(u, h, s))
  }

  /** Unless it ends the transfer, the handler takes the interrupt for a completed transaction if and only if it is one. */
  predicate Exact(u: Usb, h: History, s: Step)
  {
    Apply(u, s).interrupt.Some? ==> (ReachesData(u, s) <==> Reported(u, h, s))
  }

  predicate AllExact(u: Usb, h: History, steps: seq<Step>)
    decreases |steps|
  {
    steps == [] || (Exact(u, h, steps[0]) && AllExact(Apply(u, steps[0]), Observed(u, h, steps[0]), steps[1..]))
  }

  predicate Delivers(u: Usb, s: Step)
  {
    u.interrupt.Some? && |Apply(u, s).delivered| > |u.delivered|
  }

  predicate DeliversInFlight(u: Usb, s: Step)
  {
    Delivers(u, s) ==> u.interrupt.value.phase == InFlight
  }

  predicate DeliversUnmasked(u: Usb, s: Step)
  {
    Delivers(u, s) ==> u.unmasked
  }

  /** P holds of every step of a run, in the state the step starts from. */
  predicate Along(u: Usb, steps: seq<Step>, P: (Usb, Step) -> bool)
    decreases |steps|
  {
    steps == [] || (P(u, steps[0]) && Along(Apply(u, steps[0]), steps[1..], P))
  }

  predicate IdMatches(u: Usb, h: History)
  {
    u.interrupt.Some? ==> u.interrupt.value.packetId == if h.completed % 2 == 0 then Data0 else Data1
  }

  /** At every point of a run the packet id is the parity of completed transactions. */
  predicate InStep(u: Usb, h: History, steps: seq<Step>)
    decreases |steps|
  {
    IdMatches(u, h) && (steps == [] || InStep(Apply(u, steps[0]), Observed(u, h, steps[0]), steps[1..]))
  }

  /** The packet id changes at the interrupts that reach the data branch, and at no other step. */
  lemma TogglesExactly(u: Usb, s: Step)
    requires Inv(u) && u.interrupt.Some? && Apply(u, s).interrupt.Some?
    ensures Apply(u, s).interrupt.value.packetId ==
              if ReachesData(u, s) then u.interrupt.value.packetId.Toggled() else u.interrupt.value.packetId
  {
    hide Transient, IsError;
  }

  lemma OneStepInStep(u: Usb, h: History, s: Step)
    requires Inv(u) && IdMatches(u, h)
    ensures IdMatches(Apply(u, s), Observed(u, h, s)) <==> Exact(u, h, s)
  {
    if u.interrupt.Some? {
      hide Apply, Inv, IsError, Reported;
      assert u.interrupt.value.packetId != Setup by { NoSetup(u); }
      if Apply(u, s).interrupt.Some? { TogglesExactly(u, s); }
    } else {
      FreshStart(u, s);
    }
  }

  lemma NoSetup(u: Usb)
    requires Inv(u) && u.interrupt.Some?
    ensures u.interrupt.value.packetId != Setup
  {
  }

  lemma FreshStart(u: Usb, s: Step)
    requires u.interrupt.None?
    ensures Apply(u, s).interrupt.Some? ==> Apply(u, s).interrupt.value.packetId == Data0
  {
  }

  /** Host and device stay in step over a run (section 8.6 of USB 2.0) exactly when, until the transfer ends, the handler
      takes an interrupt for a completed transaction if and only if it reports one. */
  lemma {:induction false} InStepExactly(u: Usb, h: History, steps: seq<Step>)
    requires Inv(u) && AllLegal(u, steps) && IdMatches(u, h)
    ensures InStep(u, h, steps) <==> AllExact(u, h, steps)
    decreases |steps|
  {
    if steps != [] {
      var s := steps[0];
      StepKeepsInv(u, s);
      OneStepInStep(u, h, s);
      if Exact(u, h, s) { InStepExactly(Apply(u, s), Observed(u, h, s), steps[1..]); }
    }
  }

  /** The four ways to fall out of step, as they show in the cause bits of a channel interrupt: in flight, data taken
      without a completion, or a completion next to NAK, NYET or a transient error; an interrupt without error for an idle
      transfer; and a completion during a recovery. */
  lemma OutOfStepExactly(u: Usb, h: History, s: Step)
    requires Inv(u) && u.interrupt.Some? && Apply(u, s).interrupt.Some?
    ensures !Exact(u, h, s) <==>
              s.ChannelIrq? && s.hcint != 0 &&
              var a, complete := u.interrupt.value, ReportsCompletion(s.hcint);
              match a.phase
              case InFlight => a.splitPhase != Start && (complete <==> !NoError(s.hcint))
              case Idle => a.splitPhase != Start && NoError(s.hcint)
              case Recovering => h.wedged && complete
  {
    assert !ReportsCompletion(0);
    StartMeansSplit(u);
    hide Apply, Inv, NoError, ReportsCompletion;
  }

  lemma StartMeansSplit(u: Usb)
    requires Inv(u) && u.interrupt.Some?
    ensures var a := u.interrupt.value; a.transfer.route.UsesSplit() <==> a.splitPhase != NoSplit
    ensures var a := u.interrupt.value; a.phase != InFlight ==> a.splitPhase != Complete
  {
  }

  lemma OneStepRun(u: Usb, h: History, s: Step)
    requires Inv(u) && Legal(u, s) && IdMatches(u, h)
    ensures InStep(u, h, [s]) <==> Exact(u, h, s)
  {
    hide Inv, Apply, Exact;
    assert [s][1..] == [];
    OneStepInStep(u, h, s);
  }

  /** An acknowledgement without completion in flight, and any interrupt without error for an idle transfer without split:
      the interrupt mask lets both through, and each hands the handler a full packet. */
  lemma SpuriousInterrupts(u: Usb, h: History, connected: bool, now: u64)
    requires Inv(u) && IdMatches(u, h) && u.interrupt.Some?
    requires !u.interrupt.value.transfer.route.UsesSplit() && u.interrupt.value.transfer.maxPacketSize > 0
    ensures u.interrupt.value.phase == InFlight ==>
              var s := ChannelIrq(HCINT_ACK, connected, 0, now); Delivers(u, s) && !InStep(u, h, [s])
    ensures u.interrupt.value.phase == Idle ==>
              var s := ChannelIrq(HCINT_XFER_COMPLETE, connected, 0, now); !u.unmasked && Delivers(u, s) && !InStep(u, h, [s])
  {
    var ack, done := ChannelIrq(HCINT_ACK, connected, 0, now), ChannelIrq(HCINT_XFER_COMPLETE, connected, 0, now);
    assert !IsError(HCINT_ACK) && !IsError(HCINT_XFER_COMPLETE);
    OneStepRun(u, h, ack);
    OneStepRun(u, h, done);
  }

  /** A completion that comes together with a NAK is not taken: nothing is delivered and the packet id stays. */
  lemma CompletionWithNak(u: Usb, h: History, connected: bool, remaining: nat, now: u64)
    requires Inv(u) && IdMatches(u, h) && u.interrupt.Some? && u.interrupt.value.phase == InFlight
    requires !u.interrupt.value.transfer.route.UsesSplit()
    ensures var s := ChannelIrq(HCINT_XFER_COMPLETE | HCINT_NAK, connected, remaining, now);
      && !Delivers(u, s) && Apply(u, s).interrupt.Some?
      && Apply(u, s).interrupt.value.packetId == u.interrupt.value.packetId && !InStep(u, h, [s])
  {
    var s := ChannelIrq(HCINT_XFER_COMPLETE | HCINT_NAK, connected, remaining, now);
    assert !IsError(s.hcint);
    OneStepRun(u, h, s);
  }

  /** Data is delivered only from a transfer in flight exactly when every delivering interrupt comes while unmasked: a
      corollary of `RunKeepsInv`, since unmasked means in flight. */
  lemma {:induction false} DeliveryOnlyInFlight(u: Usb, steps: seq<Step>)
    requires Inv(u) && AllLegal(u, steps)
    ensures Along(u, steps, DeliversInFlight) <==> Along(u, steps, DeliversUnmasked)
    decreases |steps|
  {
    if steps != [] {
      StepKeepsInv(u, steps[0]);
      DeliveryOnlyInFlight(Apply(u, steps[0]), steps[1..]);
    }
  }

  /** While a poller recovers the channel, other pollers and the channel interrupt leave everything alone. */
  lemma RecoveryUndisturbed(u: Usb, s: Step)
    requires u.interrupt.Some? && u.interrupt.value.phase == Recovering && (s.Poll? || s.ChannelIrq?)
    ensures Apply(u, s) == u
  {
  }

  predicate Fatal(u: Usb, hcint: bv32, connected: bool)
  {
    IsError(hcint) && (!Transient(hcint, connected) || u.transientRun == MAX_INTERRUPT_ERROR_RETRIES)
  }

  /** A step ends a transfer in exactly these cases; in particular no poll does, eight transient errors in a row do
      not, and the ninth does. */
  lemma EndsExactly(u: Usb, s: Step)
    requires Inv(u) && u.interrupt.Some?
    ensures Apply(u, s).interrupt.None? <==>
              match s
              case Cancel(route, endpoint) => CancelMatches(u, route, endpoint)
              case PortIrq(connected) => !connected
              case DisconnectIrq => true
              case ChannelIrq(hcint, connected, _, _) => u.interrupt.value.phase != Recovering && Fatal(u, hcint, connected)
              case _ => false
  {
    if s.ChannelIrq? && s.hcint == 0 {
      assert !IsError(0);
    }
  }

  /** Polls, recoveries and transient errors, and no good interrupt. */
  predicate Noise(s: Step)
  {
    match s
    case ChannelIrq(hcint, connected, _, _) => Transient(hcint, connected)
    case Poll(_) => true
    case RecoveryEnds(_) => true
    case _ => false
  }

  /** The transient errors of a run that the handler sees: those during a recovery are left to it. */
  function SeenErrors(u: Usb, steps: seq<Step>): nat
    decreases |steps|
  {
    if steps == [] then 0
    else
      (if steps[0].ChannelIrq? && u.interrupt.Some? && u.interrupt.value.phase != Recovering then 1 else 0)
      + SeenErrors(Apply(u, steps[0]), steps[1..])
  }

  lemma TransientIsError(hcint: bv32, connected: bool)
    requires Transient(hcint, connected)
    ensures IsError(hcint) && hcint != 0
  {
  }

  /** Through any noise the transfer survives eight consecutive transient errors; the ninth ends it. */
  lemma {:induction false} NinthErrorEnds(u: Usb, steps: seq<Step>)
    requires Inv(u) && u.interrupt.Some? && AllLegal(u, steps)
    requires forall s | s in steps :: Noise(s)
    ensures Run(u, steps).interrupt.None? <==> u.transientRun + SeenErrors(u, steps) > MAX_INTERRUPT_ERROR_RETRIES
    decreases |steps|
  {
    if steps != [] {
      var s := steps[0];
      assert s in steps;
      StepKeepsInv(u, s);
      if s.ChannelIrq? { TransientIsError(s.hcint, s.connected); }
      var u' := Apply(u, s);
      if u'.interrupt.Some? {
        NinthErrorEnds(u', steps[1..]);
      } else {
        NoneStays(u', steps[1..]);
      }
    }
  }

  lemma {:induction false} NoneStays(u: Usb, steps: seq<Step>)
    requires u.interrupt.None? && forall s | s in steps :: Noise(s)
    ensures Run(u, steps).interrupt.None?
    decreases |steps|
  {
    if steps != [] {
      assert steps[0] in steps;
      NoneStays(Apply(u, steps[0]), steps[1..]);
    }
  }

  /** A lost channel interrupt never costs the transfer: once the timeout has passed, a poll, the end of its recovery and
      the next poll put it back in flight, with a fresh split phase and the packet id it had. That id is the right one
      unless the lost interrupt was a completion (see `LateCompletion`). */
  lemma WatchdogRearms(u: Usb, now: u64, end: u64, next: u64)
    requires Inv(u) && u.interrupt.Some? && u.interrupt.value.phase == InFlight
    requires u.timeout != 0 && WrappingSub(now, u.interrupt.value.inflightSince) >= u.timeout
    requires WrappingSub(next, end) < HALF_RANGE
    ensures var u' := Run(u, [Poll(now), RecoveryEnds(end), Poll(next)]);
      && u'.interrupt == Some(Armed(ResetSplit(u.interrupt.value).(nextDue := end), next))
      && u'.unmasked && !u'.recovering && u'.delivered == u.delivered
  {
    var u1 := AfterPoll(u, now);
    var u2 := AfterRecovery(u1, end);
    var u3 := AfterPoll(u2, next);
    assert [Poll(now), RecoveryEnds(end), Poll(next)][1..] == [RecoveryEnds(end), Poll(next)];
    assert [RecoveryEnds(end), Poll(next)][1..] == [Poll(next)];
    assert Run(u2, [Poll(next)]) == Run(u3, []);
    assert Run(u1, [RecoveryEnds(end), Poll(next)]) == u3;
  }

  /** A completion that comes in while the watchdog recovers the channel is dropped, and the transfer goes on with the
      packet id of the transaction that completed. */
  lemma LateCompletion(u: Usb, h: History, now: u64, late: u64, connected: bool, remaining: nat, end: u64, next: u64)
    requires Inv(u) && IdMatches(u, h) && u.interrupt.Some? && u.interrupt.value.phase == InFlight
    requires u.interrupt.value.splitPhase != Start
    requires u.timeout != 0 && WrappingSub(now, u.interrupt.value.inflightSince) >= u.timeout
    requires WrappingSub(next, end) < HALF_RANGE
    ensures var steps := [Poll(now), ChannelIrq(HCINT_XFER_COMPLETE, connected, remaining, late), RecoveryEnds(end), Poll(next)];
      var u' := Run(u, steps);
      && AllLegal(u, steps) && !InStep(u, h, steps) && u'.interrupt.Some? && u'.interrupt.value.phase == InFlight
      && u'.interrupt.value.packetId == u.interrupt.value.packetId && u'.delivered == u.delivered
  {
    var irq := ChannelIrq(HCINT_XFER_COMPLETE, connected, remaining, late);
    var steps := [Poll(now), irq, RecoveryEnds(end), Poll(next)];
    var u1 := AfterPoll(u, now);
    assert Apply(u1, irq) == u1;
    var u2 := AfterRecovery(u1, end);
    var u3 := AfterPoll(u2, next);
    assert steps[1..] == [irq, RecoveryEnds(end), Poll(next)];
    assert steps[1..][1..] == [RecoveryEnds(end), Poll(next)] && steps[1..][1..][1..] == [Poll(next)];
    assert [Poll(next)][1..] == [];
    LateRun(u, u1, u2, u3, steps);
    assert Reported(u1, Observed(u, h, steps[0]), irq);
    hide Apply;
    assert !AllExact(u1, Observed(u, h, steps[0]), steps[1..]);
    InStepExactly(u, h, steps);
  }

  lemma LateRun(u: Usb, u1: Usb, u2: Usb, u3: Usb, steps: seq<Step>)
    requires |steps| == 4 && Apply(u, steps[0]) == u1 == Apply(u1, steps[1]) && Apply(u1, steps[2]) == u2 && Apply(u2, steps[3]) == u3
    requires Legal(u, steps[0]) && Legal(u1, steps[1]) && Legal(u1, steps[2]) && Legal(u2, steps[3])
    ensures Run(u, steps) == u3 && AllLegal(u, steps)
  {
    hide Apply, Legal;
    assert steps[1..][1..] == steps[2..] && steps[2..][1..] == steps[3..] && steps[3..][1..] == [];
    assert Run(u2, steps[3..]) == Run(u3, []) && AllLegal(u2, steps[3..]);
    assert Run(u1, steps[2..]) == Run(u2, steps[3..]) && AllLegal(u1, steps[2..]);
    assert Run(u1, steps[1..]) == Run(u1, steps[2..]) && AllLegal(u1, steps[1..]);
  }

  /** A transfer that has gone idle is due again when its interval is over, and not before. */
  lemma DueAfterInterval(a: Async, now: u64, later: u64)
    requires a.intervalTicks < HALF_RANGE
    ensures IsDue(ToIdle(a, now), later) <==>
              a.intervalTicks <= WrappingSub(later, now) < a.intervalTicks + HALF_RANGE
  {
  }

  /** How many more channel interrupts a transaction in flight can take. */
  function Budget(a: Async): nat
  {
    if a.phase != InFlight then 0
    else match a.splitPhase
      case NoSplit => 1
      case Start => MAX_SPLIT_COMPLETE_RETRIES + 2
      case Complete => if a.splitRetries <= MAX_SPLIT_COMPLETE_RETRIES then MAX_SPLIT_COMPLETE_RETRIES + 1 - a.splitRetries else 0
  }

  /** Every channel interrupt with a cause uses up part of the budget: after at most six the transaction is over. */
  lemma IrqSpendsBudget(u: Usb, s: Step)
    requires Inv(u) && u.interrupt.Some? && u.interrupt.value.phase == InFlight && s.ChannelIrq? && s.hcint != 0
    ensures Budget(u.interrupt.value) <= MAX_SPLIT_COMPLETE_RETRIES + 2
    ensures var next := Apply(u, s).interrupt; next.Some? ==> Budget(next.value) < Budget(u.interrupt.value)
  {
  }

  // ----- delivered lengths -----

  /** `programmed_transfer_size` for an interrupt-IN request. */
  function Programmed(t: Transfer): nat
  {
    if t.route.UsesSplit() then (if Requested(t) >= t.maxPacketSize then Requested(t) else t.maxPacketSize) else Requested(t)
  }

  /** The handler gets what the device sent, up to what was asked, unless a split transaction programs a whole packet
      for a shorter request: then the leftover is counted against the wrong size. */
  lemma DeliveredLength(t: Transfer, a: Async, sent: nat)
    requires Validate(t) == Ok && a.transfer == t && a.lastRequestLen == Requested(t) && sent <= Programmed(t)
    ensures ActualLen(a, Programmed(t) - sent) == Min(sent, Requested(t)) <==>
              !t.route.UsesSplit() || t.expectedLen >= t.maxPacketSize || sent == 0 || sent == t.maxPacketSize
  {
  }

  /** What a caller can check before submitting: every length arrives exactly when a split transaction is not asked for
      less than a packet. */
  lemma DeliversEveryLength(t: Transfer, a: Async)
    requires Validate(t) == Ok && a.transfer == t && a.lastRequestLen == Requested(t)
    ensures (forall sent: nat | sent <= Programmed(t) :: ActualLen(a, Programmed(t) - sent) == Min(sent, Requested(t))) <==>
              !t.route.UsesSplit() || t.expectedLen >= t.maxPacketSize
  {
    if t.route.UsesSplit() && t.expectedLen < t.maxPacketSize {
      DeliveredLength(t, a, 1);
      assert 1 <= Programmed(t) && ActualLen(a, Programmed(t) - 1) != Min(1, Requested(t));
    } else {
      forall sent: nat | sent <= Programmed(t)
        ensures ActualLen(a, Programmed(t) - sent) == Min(sent, Requested(t))
      {
        DeliveredLength(t, a, sent);
      }
    }
  }

  /** A four-byte report behind a high-speed hub, on an endpoint with eight-byte packets, never reaches its handler. */
  lemma ShortSplitReportIsLost()
    ensures var t := Transfer(Route(5, Low, 1, 2, High), 1, true, true, 8, 4, 8, 0);
      && Validate(t) == Ok && Requested(t) == 4
      && forall a: Async | a.transfer == t && a.lastRequestLen == 4 :: ActualLen(a, Programmed(t) - 4) == 0
  {
  }

  /** Why a submission must wait for a recovery to end: the recovering poller would mark the new transfer idle while its
      interrupt stays unmasked. */
  lemma EarlyResubmissionBreaks(t: Transfer, interval: u64)
    requires Validate(t) == Ok && t.bufferPhys < 0x1_0000_0000
    ensures var u := Usb(8, 50, None, false, false, [], 0, 0);
      var u' := Run(u, [Submit(t, interval, 0), Poll(50), Cancel(t.route, t.endpoint), Submit(t, interval, 60), RecoveryEnds(70)]);
      Inv(u) && u'.interrupt.Some? && u'.interrupt.value.phase == Idle && u'.unmasked && !Inv(u')
  {
    var steps := [Submit(t, interval, 0), Poll(50), Cancel(t.route, t.endpoint), Submit(t, interval, 60), RecoveryEnds(70)];
    var u := Usb(8, 50, None, false, false, [], 0, 0);
    var u1 := Apply(u, steps[0]);
    var u2 := Apply(u1, steps[1]);
    assert u2.recovering;
    var u3 := Apply(u2, steps[2]);
    var u4 := Apply(u3, steps[3]);
    var u5 := Apply(u4, steps[4]);
    assert steps[1..][1..] == steps[2..] && steps[2..][1..] == steps[3..] && steps[3..][1..] == steps[4..];
    assert steps[4..][1..] == [];
    assert Run(u4, steps[4..]) == Run(u5, []);
    assert Run(u3, steps[3..]) == Run(u4, steps[4..]);
    assert Run(u2, steps[2..]) == Run(u3, steps[3..]);
    assert Run(u1, steps[1..]) == Run(u2, steps[2..]);
  }
}
