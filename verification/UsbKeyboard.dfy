/** Auto-repeat of a held key (src/drivers/usb/bcm2708_usb.rs, `KeyboardState::service_repeat`).
    Times are in nanoseconds. */
module UsbKeyboard {
  import opened Basics

  const MILLISECOND: nat := 1_000_000
  const REPEAT_DELAY: nat := 200 * MILLISECOND
  const REPEAT_INTERVAL: nat := 40 * MILLISECOND
  const REPEAT_MAX_HOLD: nat := 10_000 * MILLISECOND
  const MAX_REPEATS: nat := 245

  datatype RepeatKey = RepeatKey(usage: byte, code: byte)

  /** The fields auto-repeat uses, and every byte it has queued since the key was anchored. */
  datatype Repeat = Repeat(key: Option<RepeatKey>, tracked: Option<byte>, anchor: nat, lastEmit: nat, queued: seq<byte>)

  /** `saturating_sub`. */
  function Since(now: nat, t: nat): nat
  {
    if now >= t then now - t else 0
  }

  function Service(r: Repeat, now: nat): Repeat
  {
    if r.key.None? then r.(tracked := None)
    else if r.tracked != Some(r.key.value.usage) then
      r.(tracked := Some(r.key.value.usage), anchor := now, lastEmit := now, queued := [])
    else if Since(now, r.anchor) >= REPEAT_MAX_HOLD then r.(key := None, tracked := None)
    else if Since(now, r.anchor) >= REPEAT_DELAY && Since(now, r.lastEmit) >= REPEAT_INTERVAL then
      r.(lastEmit := now, queued := r.queued + [r.key.value.code])
    else r
  }

  class KeyboardState {
    var repeat: Option<RepeatKey>
    var tracked: Option<byte>
    var anchor: nat
    var lastEmit: nat
    var previousReport: seq<byte>
    ghost var queued: seq<byte>

    ghost function View(): Repeat
      reads this
    {
      Repeat(repeat, tracked, anchor, lastEmit, queued)
    }

    constructor ()
      ensures View() == Repeat(None, None, 0, 0, [])
    {
      repeat, tracked, anchor, lastEmit := None, None, 0, 0;
      previousReport := seq(8, _ => 0);
      queued := [];
    }

    method StopRepeat()
      modifies this
      ensures View() == old(View()).(key := None, tracked := None)
    {
      repeat := None;
      tracked := None;
      previousReport := seq(8, _ => 0);
    }

    /** Returns the byte pushed to the input queue, if any. */
    method ServiceRepeat(now: nat) returns (pushed: Option<byte>)
      modifies this
      ensures View() == Service(old(View()), now)
      ensures pushed.Some? <==> old(repeat).Some? && queued == old(queued) + [old(repeat).value.code]
      ensures pushed.Some? ==> pushed == Some(old(repeat).value.code)
    {
      if repeat.None? {
        tracked := None;
        return None;
      }
      if tracked != Some(repeat.value.usage) {
        tracked := Some(repeat.value.usage);
        anchor := now;
        lastEmit := now;
        queued := [];
        return None;
      }
      if Since(now, anchor) >= REPEAT_MAX_HOLD {
        StopRepeat();
        return None;
      }
      if Since(now, anchor) >= REPEAT_DELAY && Since(now, lastEmit) >= REPEAT_INTERVAL {
        lastEmit := now;
        queued := queued + [repeat.value.code];
        return Some(repeat.value.code);
      }
      return None;
    }
  }

  // ----- runs without a report -----

  function ServiceAll(r: Repeat, times: seq<nat>): Repeat
    decreases |times|
  {
    if times == [] then r else ServiceAll(Service(r, times[0]), times[1..])
  }

  /** The emissions so far fit in the window they had: the first after the delay, the others an interval apart, and none
      at or past the fuse. */
  ghost predicate Paced(r: Repeat)
  {
    || r.queued == []
    || (r.anchor + REPEAT_DELAY + (|r.queued| - 1) * REPEAT_INTERVAL <= r.lastEmit < r.anchor + REPEAT_MAX_HOLD)
  }

  lemma ServicePaced(r: Repeat, now: nat)
    requires Paced(r)
    ensures Paced(Service(r, now))
  {
  }

  lemma PacedBound(r: Repeat)
    requires Paced(r)
    ensures |r.queued| <= MAX_REPEATS
  {
  }

  /** Whatever the times of the calls, a held key repeats at most 245 times after it is anchored. */
  lemma {:induction false} AtMost245(r: Repeat, times: seq<nat>)
    requires Paced(r)
    ensures Paced(ServiceAll(r, times)) && |ServiceAll(r, times).queued| <= MAX_REPEATS
    decreases |times|
  {
    if times == [] {
      PacedBound(r);
    } else {
      ServicePaced(r, times[0]);
      AtMost245(Service(r, times[0]), times[1..]);
    }
  }

  lemma {:induction false} OffStaysOff(r: Repeat, times: seq<nat>)
    requires r.key.None?
    ensures ServiceAll(r, times).key.None? && ServiceAll(r, times).queued == r.queued
    decreases |times|
  {
    if times != [] { OffStaysOff(Service(r, times[0]), times[1..]); }
  }

  /** A call at or past the fuse turns repeat off, and it stays off whatever calls follow. */
  lemma FuseBlows(r: Repeat, now: nat, times: seq<nat>)
    requires r.key.Some? && r.tracked == Some(r.key.value.usage) && now >= r.anchor + REPEAT_MAX_HOLD
    ensures var r' := ServiceAll(Service(r, now), times); r'.key.None? && r'.queued == r.queued
  {
    OffStaysOff(Service(r, now), times);
  }

  /** While a key is held and tracked, a call emits exactly when the fuse has not blown and both waits are over. */
  lemma EmitsExactly(r: Repeat, now: nat)
    requires r.key.Some? && r.tracked == Some(r.key.value.usage) && r.anchor <= r.lastEmit <= now
    ensures Service(r, now).queued == r.queued + [r.key.value.code] <==>
              r.anchor + REPEAT_DELAY <= now < r.anchor + REPEAT_MAX_HOLD && r.lastEmit + REPEAT_INTERVAL <= now
  {
    assert |r.queued + [r.key.value.code]| == |r.queued| + 1;
  }

  /** A key held since the last call, or another one, is anchored now and emits nothing; letting go of it stops repeat. */
  lemma AnchoredAnew(r: Repeat, now: nat)
    ensures r.key.Some? && r.tracked != Some(r.key.value.usage) ==>
              Service(r, now) == Repeat(r.key, Some(r.key.value.usage), now, now, [])
    ensures r.key.None? ==> Service(r, now) == r.(tracked := None)
  {
  }

  /** In nanoseconds: nothing for 200 ms after the anchor, then a byte, then one no sooner than 40 ms after the last, and
      nothing from 10 s on. */
  lemma EmitsByTheClock(r: Repeat, now: nat)
    requires r.key.Some? && r.tracked == Some(r.key.value.usage) && r.anchor <= r.lastEmit <= now
    ensures var wait := if r.lastEmit == r.anchor then 200_000_000 else if r.lastEmit + 40_000_000 < r.anchor + 200_000_000 then r.anchor + 200_000_000 - r.lastEmit else 40_000_000;
      if now >= r.anchor + 10_000_000_000 then Service(r, now) == r.(key := None, tracked := None)
      else if now >= r.lastEmit + wait then Service(r, now) == r.(lastEmit := now, queued := r.queued + [r.key.value.code])
      else Service(r, now) == r
  {
  }

  /** Calls every 40 ms from the end of the delay on. */
  function EveryInterval(start: nat, n: nat): seq<nat>
    decreases n
  {
    if n == 0 then [] else [start] + EveryInterval(start + REPEAT_INTERVAL, n - 1)
  }

  lemma {:induction false} EachCallEmits(r: Repeat, start: nat, n: nat)
    requires r.key.Some? && r.tracked == Some(r.key.value.usage) && r.anchor <= r.lastEmit
    requires r.anchor + REPEAT_DELAY <= start && r.lastEmit + REPEAT_INTERVAL <= start
    requires n > 0 ==> start + (n - 1) * REPEAT_INTERVAL < r.anchor + REPEAT_MAX_HOLD
    ensures |ServiceAll(r, EveryInterval(start, n)).queued| == |r.queued| + n
    decreases n
  {
    if n > 0 {
      var times := EveryInterval(start, n);
      assert times[1..] == EveryInterval(start + REPEAT_INTERVAL, n - 1);
      EachCallEmits(Service(r, start), start + REPEAT_INTERVAL, n - 1);
    }
  }

  /** The bound is reached. */
  lemma Reaches245(key: RepeatKey, now: nat)
    ensures var r := Service(Repeat(Some(key), None, 0, 0, []), now);
            |ServiceAll(r, EveryInterval(now + REPEAT_DELAY, MAX_REPEATS)).queued| == MAX_REPEATS
  {
    EachCallEmits(Service(Repeat(Some(key), None, 0, 0, []), now), now + REPEAT_DELAY, MAX_REPEATS);
  }
}
