// Time from the RTC counter (esp_clk.c, with retained RTC memory).
//
// Every reading adds the ticks since the last one, times the calibration factor,
// to a retained sum; the factor may change between readings.

module RtcTime {
  import opened Machine

  const SCALE: nat := 0x8_0000              // 2^19; RTC_CLK_CAL_FRACT is 19
  const TICK_END: nat := 0x1_0000_0000_0000 // the counter has 48 bits
  const CAL_END: nat := 0x100_0000          // the factor has 24 bits
  const HIGH: nat := 0x2000                 // 2^(32 - 19)

  /// The time of `ticks` in microseconds as the code computes it in 64 bits, from
  /// the lower 32 and the upper bits of `ticks`.
  function DeltaUs(ticks: nat, cal: nat): nat {
    var low, high := ticks % U32, ticks / U32;
    ((low * cal % U64) / SCALE + (high * cal % U64) * HIGH % U64) % U64
  }

  lemma MulBound(a: nat, b: nat, m: nat, n: nat)
    requires a <= m && b <= n
    ensures a * b <= m * n
  {
    assert a * b <= m * b <= m * n;
  }

  lemma SplitProduct(low: nat, high: nat, cal: nat)
    ensures (low + high * U32) * cal == low * cal + (high * cal) * U32
  {
    assert (high * U32) * cal == (high * cal) * U32;
  }

  lemma ShiftSum(a: nat, b: nat)
    ensures (a + b * U32) / SCALE == a / SCALE + b * HIGH
  {
  }

  /// The split computation is exact.
  lemma SplitIsExact(ticks: nat, cal: nat)
    requires ticks < TICK_END && cal < CAL_END
    ensures DeltaUs(ticks, cal) == ticks * cal / SCALE
  {
    var low, high := ticks % U32, ticks / U32;
    MulBound(low, cal, U32 - 1, CAL_END - 1);
    MulBound(high, cal, 0xFFFF, CAL_END - 1);
    SplitProduct(low, high, cal);
    ShiftSum(low * cal, high * cal);
    SmallSum(low * cal, high * cal);
  }

  /// No intermediate result of it overflows 64 bits.
  lemma SplitDoesNotOverflow(ticks: nat, cal: nat)
    requires ticks < TICK_END && cal < CAL_END
    ensures var low, high := ticks % U32, ticks / U32;
      low * cal < U64 && high * cal * HIGH < U64 && low * cal / SCALE + high * cal * HIGH < U64
  {
    var low, high := ticks % U32, ticks / U32;
    MulBound(low, cal, U32 - 1, CAL_END - 1);
    MulBound(high, cal, 0xFFFF, CAL_END - 1);
    SmallSum(low * cal, high * cal);
  }

  lemma SmallSum(a: nat, b: nat)
    requires a <= (U32 - 1) * (CAL_END - 1) && b <= 0xFFFF * (CAL_END - 1)
    ensures a < U64 && b < U64 && b * HIGH < U64 && a / SCALE + b * HIGH < U64
    ensures ((a % U64) / SCALE + (b % U64) * HIGH % U64) % U64 == a / SCALE + b * HIGH
  {
  }

  /// The retained memory and the calibration register.
  class RtcClock {
    var timeUs: nat     // rtc_time_us
    var lastTicks: nat  // rtc_last_ticks
    var cal: nat
    var firstCall: bool
    var retained: bool  // whether the checksum of the retained memory matches
    ghost var exact: nat   // the sum of ticks times factor since the start
    ghost var readings: nat

    /// The sum lags the exact time by less than one microsecond per reading, and the
    /// exact time is within what the counter can have counted.
    ghost predicate Sums()
      reads this
    {
      && lastTicks < TICK_END
      && timeUs * SCALE <= exact <= timeUs * SCALE + readings * (SCALE - 1)
      && exact <= lastTicks * CAL_END
    }

    /// Retained memory that the next reading clears may hold anything.
    ghost predicate Valid()
      reads this
    {
      cal < CAL_END && (!Resets() ==> Sums())
    }

    /// Power-up with whatever the retained memory holds, if its checksum does not match.
    constructor (cal: nat, timeUs: nat, lastTicks: nat)
      requires cal < CAL_END
      ensures Valid() && Resets() && this.cal == cal && this.timeUs == timeUs && this.lastTicks == lastTicks
    {
      this.cal, this.timeUs, this.lastTicks := cal, timeUs, lastTicks;
      firstCall, retained := true, false;
      exact, readings := 0, 0;
    }

    /// Whether a reading starts by clearing the retained memory.
    predicate Resets()
      reads this
    {
      cal == 0 || (firstCall && !retained)
    }

    /// The counter value from which the next reading counts.
    function Start(): nat
      reads this
    {
      if Resets() then 0 else lastTicks
    }

    /// esp_rtc_get_time_us
    method GetTime(now: nat) returns (t: nat)
      requires Valid() && Start() <= now < TICK_END
      modifies this
      ensures Valid() && Sums()
      ensures t == timeUs && cal == old(cal) && lastTicks == now && retained && !firstCall
      ensures old(cal) != 0 && (!old(firstCall) || old(retained)) ==>
        && t >= old(timeUs)
        && exact == old(exact) + (now - old(lastTicks)) * cal
        && readings == old(readings) + 1
      ensures old(cal) == 0 || (old(firstCall) && !old(retained)) ==> exact == now * cal && readings == 1
      ensures cal == 0 ==> t == 0
    {
      hide DeltaUs;
      if Resets() {
        timeUs, lastTicks := 0, 0;
        exact, readings := 0, 0;
      }
      firstCall := false;
      var ticks := now - lastTicks;
      SplitIsExact(ticks, cal);
      MulBound(ticks, cal, ticks, CAL_END);
      ClockStep(timeUs, exact, readings, lastTicks, ticks, cal);
      assert (timeUs + DeltaUs(ticks, cal)) % U64 == timeUs + DeltaUs(ticks, cal);
      timeUs := (timeUs + DeltaUs(ticks, cal)) % U64;
      exact, readings := exact + ticks * cal, readings + 1;
      lastTicks := now;
      retained := true;
      t := timeUs;
    }

    /// esp_clk_slowclk_cal_set: the time up to now is counted with the old factor.
    method SetCal(newCal: nat, now: nat) returns (t: nat)
      requires Valid() && Start() <= now < TICK_END && newCal < CAL_END
      modifies this
      ensures Valid() && Sums()
      ensures cal == newCal && lastTicks == now && t == timeUs && retained && !firstCall
      ensures old(cal) != 0 && (!old(firstCall) || old(retained)) ==>
        && t >= old(timeUs)
        && exact == old(exact) + (now - old(lastTicks)) * old(cal)
        && readings == old(readings) + 1
      ensures old(cal) == 0 || (old(firstCall) && !old(retained)) ==> exact == now * old(cal) && readings == 1
      ensures old(cal) == 0 ==> t == 0
    {
      t := GetTime(now);
      cal := newCal;
    }

    method Handle(e: Event) returns (t: nat)
      requires Valid() && Start() <= e.now < TICK_END && (e.Recalibrate? ==> e.newCal < CAL_END)
      modifies this
      ensures Valid() && Sums() && t == timeUs && cal == NewFactor(old(cal), e) && lastTicks == e.now
      ensures Resets() <==> cal == 0
      ensures !old(Resets()) ==> t >= old(timeUs)
      ensures old(cal) == 0 ==> t == 0
      ensures exact ==
        if old(Resets()) then e.now * old(cal) else old(exact) + (e.now - old(lastTicks)) * old(cal)
      ensures readings == if old(Resets()) then 1 else old(readings) + 1
    {
      match e {
        case Read(now) => t := GetTime(now);
        case Recalibrate(now, newCal) => t := SetCal(newCal, now);
      }
    }

    /// Any run of readings and changes of the factor, from retained memory that is in
    /// order or is not.  The last time lags the exact time by less than one microsecond
    /// per reading, and a time is below an earlier one only if the factor was 0 for a
    /// reading in between, which starts anew.
    method Run(events: seq<Event>) returns (times: seq<nat>)
      requires Valid() && Increasing(Start(), events)
      requires forall e <- events :: e.Recalibrate? ==> e.newCal < CAL_END
      modifies this
      ensures Valid() && |times| == |events|
      ensures Ordered(old(cal), events, times)
      ensures !old(Resets()) ==> NotBefore(old(timeUs), old(cal), events, times)
      ensures exact == ExactAfter(old(exact), old(Start()), old(cal), old(Resets()), events)
      ensures readings == ReadingsAfter(old(readings), old(cal), old(Resets()), events)
      ensures events != [] ==>
        times[|events| - 1] == timeUs && timeUs * SCALE <= exact <= timeUs * SCALE + readings * (SCALE - 1)
    {
      hide Ordered, NotBefore;
      times := [];
      NothingRead(timeUs, cal, events);
      ghost var last := Start();
      for k := 0 to |events|
        invariant Valid() && |times| == k && Start() <= last && Increasing(last, events[k..])
        invariant cal == Factor(old(cal), events, k)
        invariant if k == 0 then Resets() == old(Resets()) && last == old(Start()) else Resets() <==> cal == 0
        invariant !Resets() ==> last == lastTicks
        invariant timeUs == if k == 0 then old(timeUs) else times[k - 1]
        invariant k > 0 ==> Sums()
        invariant Ordered(old(cal), events, times)
        invariant !old(Resets()) ==> NotBefore(old(timeUs), old(cal), events, times)
        invariant ExactAfter(exact, last, cal, Resets(), events[k..]) ==
          ExactAfter(old(exact), old(Start()), old(cal), old(Resets()), events)
        invariant ReadingsAfter(readings, cal, Resets(), events[k..]) ==
          ReadingsAfter(old(readings), old(cal), old(Resets()), events)
      {
        AfterOne(exact, readings, last, cal, Resets(), events[k..]);
        assert events[k..][1..] == events[k + 1..] && events[k..][0] == events[k];
        hide ExactAfter, ReadingsAfter, Steady;
        var t := Handle(events[k]);
        OneMoreRead(old(timeUs), old(cal), old(Resets()), events, times, t);
        times := times + [t];
        last := events[k].now;
      }
    }
  }

  /// A time is below an earlier one only if an event in between, or its own, found
  /// the factor 0; such an event reads 0.
  ghost predicate Ordered(cal: nat, events: seq<Event>, times: seq<nat>) {
    && |times| <= |events|
    && (forall i, j :: 0 <= i < j < |times| && Steady(cal, events, i, j + 1) ==> times[i] <= times[j])
    && (forall j :: 0 <= j < |times| && Factor(cal, events, j) == 0 ==> times[j] == 0)
  }

  ghost predicate NotBefore(start: nat, cal: nat, events: seq<Event>, times: seq<nat>) {
    && |times| <= |events|
    && forall j :: 0 <= j < |times| && Steady(cal, events, -1, j + 1) ==> start <= times[j]
  }

  lemma NothingRead(start: nat, cal: nat, events: seq<Event>)
    ensures Ordered(cal, events, []) && NotBefore(start, cal, events, [])
  {
  }

  lemma OneMoreRead(start: nat, cal: nat, restart: bool, events: seq<Event>, times: seq<nat>, t: nat)
    requires |times| < |events| && Ordered(cal, events, times)
    requires !restart ==> NotBefore(start, cal, events, times)
    requires var k := |times|;
      && (Factor(cal, events, k) == 0 ==> t == 0)
      && (if k == 0 then !restart ==> start <= t else Factor(cal, events, k) != 0 ==> times[k - 1] <= t)
    ensures Ordered(cal, events, times + [t])
    ensures !restart ==> NotBefore(start, cal, events, times + [t])
  {
    hide Factor;
    var k, more := |times|, times + [t];
    forall i, j | 0 <= i < j <= k && Steady(cal, events, i, j + 1)
      ensures more[i] <= more[j]
    {
      if j == k {
        StillSteady(cal, events, i, k);
      }
    }
    if !restart {
      forall j | 0 <= j <= k && Steady(cal, events, -1, j + 1)
        ensures start <= more[j]
      {
        if j == k > 0 {
          StillSteady(cal, events, -1, k);
        }
      }
    }
  }

  lemma StillSteady(cal: nat, events: seq<Event>, i: int, k: nat)
    requires i < k < |events| && Steady(cal, events, i, k + 1)
    ensures Steady(cal, events, i, k) && Factor(cal, events, k) != 0
  {
  }

  /// A reading, or a change of the factor, at counter value `now`.
  datatype Event = Read(now: nat) | Recalibrate(now: nat, newCal: nat)

  /// The counter never goes back.
  predicate Increasing(last: nat, events: seq<Event>)
    decreases |events|
  {
    events == [] || (last <= events[0].now < TICK_END && Increasing(events[0].now, events[1..]))
  }

  function NewFactor(cal: nat, e: Event): nat {
    if e.Recalibrate? then e.newCal else cal
  }

  /// The factor in force before event `k`.
  function Factor(cal: nat, events: seq<Event>, k: nat): nat
    requires k <= |events|
  {
    if k == 0 then cal else NewFactor(Factor(cal, events, k - 1), events[k - 1])
  }

  /// No event after `i` and before `k` finds the factor 0.
  ghost predicate Steady(cal: nat, events: seq<Event>, i: int, k: nat)
    requires k <= |events|
  {
    forall m: nat :: i < m < k ==> Factor(cal, events, m) != 0
  }

  /// Every tick since the last restart counted with the factor in force when it
  /// passed.  A restart counts all ticks with the factor then in force.
  function ExactAfter(exact: nat, last: nat, cal: nat, restart: bool, events: seq<Event>): nat
    requires Increasing(last, events)
    decreases |events|
  {
    if events == [] then exact else
      var e := events[0];
      var next := if restart then e.now * cal else exact + (e.now - last) * cal;
      var cal' := NewFactor(cal, e);
      ExactAfter(next, e.now, cal', cal' == 0, events[1..])
  }

  function ReadingsAfter(readings: nat, cal: nat, restart: bool, events: seq<Event>): nat
    decreases |events|
  {
    if events == [] then readings else
      var cal' := NewFactor(cal, events[0]);
      ReadingsAfter(if restart then 1 else readings + 1, cal', cal' == 0, events[1..])
  }

  lemma {:induction false} AfterOne(exact: nat, readings: nat, last: nat, cal: nat, restart: bool, events: seq<Event>)
    requires events != [] && Increasing(last, events)
    ensures var e := events[0];
      var cal' := NewFactor(cal, e);
      var next := if restart then e.now * cal else exact + (e.now - last) * cal;
      && ExactAfter(exact, last, cal, restart, events) == ExactAfter(next, e.now, cal', cal' == 0, events[1..])
      && ReadingsAfter(readings, cal, restart, events) ==
         ReadingsAfter(if restart then 1 else readings + 1, cal', cal' == 0, events[1..])
  {
  }

  lemma ClockStep(timeUs: nat, exact: nat, readings: nat, last: nat, ticks: nat, cal: nat)
    requires timeUs * SCALE <= exact <= timeUs * SCALE + readings * (SCALE - 1)
    requires exact <= last * CAL_END && last + ticks < TICK_END && ticks * cal <= ticks * CAL_END
    ensures var t, e := timeUs + ticks * cal / SCALE, exact + ticks * cal;
      && t < U64
      && t * SCALE <= e <= t * SCALE + (readings + 1) * (SCALE - 1)
      && e <= (last + ticks) * CAL_END
  {
    var p := ticks * cal;
    var q := p / SCALE;
    assert q * SCALE <= p <= q * SCALE + (SCALE - 1);
    assert last * CAL_END + ticks * CAL_END == (last + ticks) * CAL_END;
  }
}
