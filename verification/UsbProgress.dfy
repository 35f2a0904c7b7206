/** What a run of the asynchronous interrupt transfer gets done: polls, split transactions and deliveries, each
    by the state before and after it (src/drivers/usb/bcm2708_usb.rs). */
module UsbProgress {
  import opened Basics
  import opened Bits
  import opened UsbInterrupt

  lemma ErrorBits(hcint: bv32)
    ensures IsError(hcint) <==> hcint & 0x78C != 0
  {
    assert HCINT_ERROR_MASK == 0x78C;
  }

  lemma TransientBits(hcint: bv32)
    ensures Transient(hcint, true) <==> hcint & 0x680 != 0 && hcint & 0x10C == 0
    ensures !Transient(hcint, false)
  {
    assert HCINT_XACT_ERROR | HCINT_FRAME_OVERRUN | HCINT_DATA_TOGGLE_ERROR == 0x680;
    assert HCINT_STALL | HCINT_AHB_ERROR | HCINT_BABBLE_ERROR == 0x10C;
  }

  lemma BothClear(x: bv32)
    ensures x & 0x78C == 0 && x & 0x50 == 0 <==> x & 0x7DC == 0
  {
  }

  lemma NoErrorBits(hcint: bv32)
    ensures NoError(hcint) <==> hcint & 0x7DC == 0
  {
    ErrorBits(hcint);
    hide IsError;
    assert HCINT_NAK | HCINT_NYET == 0x50;
    BothClear(hcint);
  }

  /** The cause bits by number: errors, those worth a retry, and interrupts that are neither error nor NAK nor NYET. */
  lemma CauseBits(hcint: bv32)
    ensures IsError(hcint) <==> hcint & 0x78C != 0
    ensures Transient(hcint, true) <==> hcint & 0x680 != 0 && hcint & 0x10C == 0
    ensures !Transient(hcint, false)
    ensures NoError(hcint) <==> hcint & 0x7DC == 0
  {
    ErrorBits(hcint);
    TransientBits(hcint);
    NoErrorBits(hcint);
    hide IsError, Transient, NoError;
  }

  /** Only a full- or low-speed device behind a port of a high-speed hub is reached by split transactions. */
  lemma SplitRoutes(r: Route)
    ensures r.speed == High || r.parentHubSpeed != High || r.parentHub == 0 || r.parentPort == 0 ==> FreshSplit(r) == NoSplit
    ensures r.speed != High && r.parentHubSpeed == High && r.parentHub > 0 && r.parentPort > 0 ==> FreshSplit(r) == Start
  {
  }

  /** In flight: on the bus, its interrupt let through. */
  predicate Flying(u: Usb, phase: SplitPhase)
  {
    u.interrupt.Some? && u.interrupt.value.phase == InFlight && u.interrupt.value.splitPhase == phase && u.unmasked
  }

  /** Idle until one interval after `now`: interrupt masked, split phase fresh. */
  predicate Resting(u: Usb, now: u64)
  {
    && u.interrupt.Some? && !u.unmasked
    && var a := u.interrupt.value;
       && a.phase == Idle && a.splitPhase == FreshSplit(a.transfer.route) && a.splitRetries == 0
       && a.nextDue == (now + a.intervalTicks) % 0x1_0000_0000_0000_0000
  }

  /** Nothing delivered, packet id as before. */
  predicate Undelivered(u: Usb, u': Usb)
  {
    && u.interrupt.Some? && u'.interrupt.Some?
    && u'.delivered == u.delivered && u'.interrupt.value.packetId == u.interrupt.value.packetId
    && u'.interrupt.value.transfer == u.interrupt.value.transfer
  }

  // ----- submitting and polling -----

  /** A submission goes on the bus at once, under DATA0, exactly when it is a valid interrupt-IN request, nothing is in
      progress and the channel and the buffer can be used. */
  lemma SubmissionFlies(u: Usb, t: Transfer, interval: u64, now: u64)
    requires Inv(u)
    ensures var u' := Apply(u, Submit(t, interval, now));
      if u.interrupt.None? && t.isIn && t.isInterrupt && 0 < t.expectedLen <= t.bufferLen && t.bufferPhys < 0x1_0000_0000 && u.channels > 1
      then Flying(u', FreshSplit(t.route)) && u'.delivered == []
           && u'.interrupt.value == Async(t, Data0, FreshSplit(t.route), InFlight,
                                          if t.expectedLen < t.maxPacketSize then t.expectedLen else t.maxPacketSize,
                                          interval, now, 0, now, 0)
      else u' == u
  {
  }

  /** A poll starts an idle transfer from its due time on, hands one in flight over to recovery from its timeout on, and
      changes nothing before. */
  lemma PollsByTheClock(u: Usb, now: u64)
    requires Inv(u)
    ensures u.interrupt.None? ==> Apply(u, Poll(now)) == u
    ensures u.interrupt.Some? && u.interrupt.value.phase == Idle ==>
              var a := u.interrupt.value;
              if (now - a.nextDue) % 0x1_0000_0000_0000_0000 < 0x8000_0000_0000_0000
              then Apply(u, Poll(now)) == u.(interrupt := Some(a.(phase := InFlight, inflightSince := now)), unmasked := true)
              else Apply(u, Poll(now)) == u
    ensures u.interrupt.Some? && u.interrupt.value.phase == InFlight ==>
              var a := u.interrupt.value;
              if u.timeout > 0 && (now - a.inflightSince) % 0x1_0000_0000_0000_0000 >= u.timeout
              then Apply(u, Poll(now)) == u.(interrupt := Some(a.(phase := Recovering, splitPhase := FreshSplit(a.transfer.route), splitRetries := 0)),
                                             unmasked := false, recovering := true)
              else Apply(u, Poll(now)) == u
    ensures u.interrupt.Some? && u.interrupt.value.phase == Recovering ==> Apply(u, Poll(now)) == u
  {
  }

  // ----- ends -----

  /** A cancellation ends the transfer of that device and endpoint and no other, and masks the channel. */
  lemma CancelsItsOwn(u: Usb, route: Route, endpoint: nat)
    requires u.interrupt.Some?
    ensures var u', t := Apply(u, Cancel(route, endpoint)), u.interrupt.value.transfer;
      if t.route == route && t.endpoint == endpoint then u'.interrupt.None? && !u'.unmasked else u' == u
  {
  }

  /** Stall, AHB error and babble (0x10C) end the transfer, as does any error on a disconnected port and the ninth transient
      error in a row; no other error does. */
  lemma ErrorsThatEnd(u: Usb, hcint: bv32, connected: bool, remaining: nat, now: u64)
    requires Inv(u) && u.interrupt.Some? && u.interrupt.value.phase != Recovering && hcint & 0x78C != 0
    ensures var u' := Apply(u, ChannelIrq(hcint, connected, remaining, now));
      && (u'.interrupt.None? <==> hcint & 0x10C != 0 || !connected || u.transientRun == 8)
      && (u'.interrupt.None? ==> !u'.unmasked && u'.delivered == u.delivered)
  {
    var s := ChannelIrq(hcint, connected, remaining, now);
    CauseBits(hcint);
    Leftover(hcint);
    EndsExactly(u, s);
    assert hcint != 0;
    hide IsError, Transient, Inv;
  }

  lemma Leftover(x: bv32)
    ensures x & 0x78C != 0 && x & 0x10C == 0 ==> x & 0x680 != 0
  {
  }

  // ----- split transactions -----

  /** An acknowledged start split goes on to its complete split. */
  lemma StartSplitGoesOn(u: Usb, hcint: bv32, connected: bool, remaining: nat, now: u64)
    requires Inv(u) && Flying(u, Start) && hcint != 0 && hcint & 0x7DC == 0
    ensures var u' := Apply(u, ChannelIrq(hcint, connected, remaining, now));
      Flying(u', Complete) && Undelivered(u, u') && u'.interrupt.value.splitRetries == 0 && Inv(u')
  {
    CauseBits(hcint);
    hide IsError;
  }

  /** A complete split the hub has no answer to yet is asked again, four times; the fifth NYET gives the interval up. */
  lemma NyetAsksAgain(u: Usb, hcint: bv32, connected: bool, remaining: nat, now: u64)
    requires Inv(u) && Flying(u, Complete) && hcint & 0x40 != 0 && hcint & 0x78C == 0
    ensures var u' := Apply(u, ChannelIrq(hcint, connected, remaining, now));
      Undelivered(u, u') &&
      if u.interrupt.value.splitRetries < 4
      then Flying(u', Complete) && u'.interrupt.value.splitRetries == u.interrupt.value.splitRetries + 1
      else Resting(u', now)
  {
    CauseBits(hcint);
    assert hcint & (HCINT_NAK | HCINT_NYET) != 0;
    hide IsError;
  }

  /** A NAK, in any phase but with no NYET to a complete split, gives the interval up. */
  lemma NakRests(u: Usb, hcint: bv32, connected: bool, remaining: nat, now: u64)
    requires Inv(u) && u.unmasked && u.interrupt.Some? && hcint & 0x10 != 0 && hcint & 0x40 == 0 && hcint & 0x78C == 0
    ensures var u' := Apply(u, ChannelIrq(hcint, connected, remaining, now)); Resting(u', now) && Undelivered(u, u')
  {
    CauseBits(hcint);
    assert hcint & (HCINT_NAK | HCINT_NYET) != 0 && hcint & HCINT_NYET == 0;
    hide IsError;
  }

  /** What arrived is handed over, the packet id toggles, and the transfer rests. */
  predicate Delivered(u: Usb, u': Usb, remaining: nat, phase: SplitPhase, now: u64)
    requires u.interrupt.Some?
  {
    var t, id := u.interrupt.value.transfer, u.interrupt.value.packetId;
    var asked := if t.expectedLen < t.maxPacketSize then t.expectedLen else t.maxPacketSize;
    && Resting(u', now) && u'.interrupt.value.transfer == t
    && u'.interrupt.value.packetId == (if id == Data0 then Data1 else Data0)
    && u'.delivered == u.delivered + (if remaining < asked then [UsbInterrupt.Delivery(asked - remaining, id, phase)] else [])
  }

  lemma DeliveredSince(u: Usb, u1: Usb, u2: Usb, remaining: nat, phase: SplitPhase, now: u64)
    requires Undelivered(u, u1) && Delivered(u1, u2, remaining, phase, now)
    ensures Delivered(u, u2, remaining, phase, now)
  {
  }

  /** A completed data transaction hands over what arrived, toggles the packet id and rests. */
  lemma DataDelivers(u: Usb, hcint: bv32, connected: bool, remaining: nat, now: u64)
    requires Inv(u) && u.unmasked && u.interrupt.Some? && !Flying(u, Start) && hcint != 0 && hcint & 0x7DC == 0
    ensures Delivered(u, Apply(u, ChannelIrq(hcint, connected, remaining, now)), remaining, u.interrupt.value.splitPhase, now)
  {
    CauseBits(hcint);
    hide IsError;
  }

  /** A transient error with retries left rests and keeps the packet id. */
  lemma TransientRests(u: Usb, hcint: bv32, remaining: nat, now: u64)
    requires Inv(u) && u.unmasked && u.interrupt.Some? && u.transientRun < 8 && hcint & 0x680 != 0 && hcint & 0x10C == 0
    ensures var u' := Apply(u, ChannelIrq(hcint, true, remaining, now));
      Resting(u', now) && Undelivered(u, u') && u'.transientRun == u.transientRun + 1
  {
    CauseBits(hcint);
    TransientIsError(hcint, true);
    hide IsError, Transient;
  }

  /** A report behind a high-speed hub: the start split acknowledged (ACK, halted), then the complete split answered
      (transfer complete, ACK, halted). It reaches the handler from the complete phase, and the packet id toggles once. */
  lemma SplitReportArrives(u: Usb, now: u64, connected: bool, remaining: nat, later: u64)
    requires Inv(u) && Flying(u, Start)
    ensures Delivered(u, Run(u, [ChannelIrq(0x22, connected, 0, now), ChannelIrq(0x23, connected, remaining, later)]),
                      remaining, Complete, later)
  {
    var ack, done := ChannelIrq(0x22, connected, 0, now), ChannelIrq(0x23, connected, remaining, later);
    hide Apply, Inv, Delivered;
    StartSplitGoesOn(u, 0x22, connected, 0, now);
    var u1 := Apply(u, ack);
    DataDelivers(u1, 0x23, connected, remaining, later);
    DeliveredSince(u, u1, Apply(u1, done), remaining, Complete, later);
    RunTwo(u, ack, done);
  }

  lemma RunTwo(u: Usb, s: Step, s': Step)
    ensures Run(u, [s, s']) == Apply(Apply(u, s), s')
  {
    hide Apply;
    var v := Apply(u, s);
    assert [s, s'][1..] == [s'] && [s'][1..] == [];
    assert Run(v, [s']) == Run(Apply(v, s'), []);
  }
}
