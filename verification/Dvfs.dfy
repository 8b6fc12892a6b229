/** CPU operating points (core/drivers/stm32_cpu_opp.c): two actuators that can each fail.

    A clock or regulator call that fails leaves the hardware as it was. Every state of the hardware,
    together with the software's idea of the current operating point, is recorded. */
module Dvfs {

  datatype TeeResult = Success | BadParameters | GenericError

  datatype Opp = Opp(freqKhz: nat, voltUv: int)

  /** A faster operating point needs at least as much voltage. */
  ghost predicate Monotone(dvfs: seq<Opp>) {
    forall i, j | 0 <= i < |dvfs| && 0 <= j < |dvfs| && dvfs[i].freqKhz <= dvfs[j].freqKhz :: dvfs[i].voltUv <= dvfs[j].voltUv
  }

  /** An observable instant. */
  datatype Instant = Instant(clock: nat, volt: int, current: nat)

  /** The voltage carries the clock: some operating point is at least as fast and needs no more. */
  ghost predicate Supplied(dvfs: seq<Opp>, clock: nat, volt: int) {
    exists i :: 0 <= i < |dvfs| && clock <= dvfs[i].freqKhz && dvfs[i].voltUv <= volt
  }

  /** Then every operating point that is not faster than the clock is supplied too. */
  lemma SuppliedDown(dvfs: seq<Opp>, clock: nat, volt: int, j: nat)
    requires Monotone(dvfs) && Supplied(dvfs, clock, volt) && j < |dvfs| && dvfs[j].freqKhz <= clock
    ensures dvfs[j].voltUv <= volt
  {
  }

  /** Voltage at least, and clock at most, that of the current operating point. */
  ghost predicate AtRest(dvfs: seq<Opp>, s: Instant) {
    s.current < |dvfs| && dvfs[s.current].voltUv <= s.volt && s.clock <= dvfs[s.current].freqKhz
  }

  /** The hardware is at opp already while the software still remembers the one before. */
  ghost predicate Arrived(dvfs: seq<Opp>, s: Instant, opp: nat) {
    opp < |dvfs| && s.clock == dvfs[opp].freqKhz && s.volt == dvfs[opp].voltUv
  }

  /** In that window the rest condition holds exactly when the move was down at equal voltage: just
      before the software commits, its current operating point is out of date. */
  lemma WindowIff(dvfs: seq<Opp>, s: Instant, opp: nat)
    requires Monotone(dvfs) && s.current < |dvfs| && Arrived(dvfs, s, opp)
    ensures AtRest(dvfs, s) <==> dvfs[opp].freqKhz <= dvfs[s.current].freqKhz && dvfs[opp].voltUv == dvfs[s.current].voltUv
  {
  }

  /** On the safe side of the current operating point, or just arrived at a requested one. */
  ghost predicate Expected(dvfs: seq<Opp>, levels: seq<nat>, s: Instant) {
    AtRest(dvfs, s) || exists opp: nat :: Arrived(dvfs, s, opp) && dvfs[opp].freqKhz in levels
  }

  ghost predicate SafeTrace(dvfs: seq<Opp>, trace: seq<Instant>) {
    forall k | 0 <= k < |trace| :: Supplied(dvfs, trace[k].clock, trace[k].volt)
  }

  // ---------- the whole effect of a request ----------

  /** The first operating point of this frequency, or the length of the table. */
  function IndexOf(dvfs: seq<Opp>, level: nat, from: nat): (r: nat)
    requires from <= |dvfs|
    ensures from <= r <= |dvfs| && (r < |dvfs| ==> dvfs[r].freqKhz == level)
    ensures forall i | from <= i < r :: dvfs[i].freqKhz != level
    decreases |dvfs| - from
  {
    if from == |dvfs| || dvfs[from].freqKhz == level then from else IndexOf(dvfs, level, from + 1)
  }

  /** The software's operating point, the number of hardware calls so far, and the hardware. */
  datatype Hw = Hw(current: nat, calls: nat, clock: nat, volt: int)

  type Oracle = nat -> bool

  predicate Asks(dvfs: seq<Opp>, s: Hw, level: nat)
    requires s.current < |dvfs|
  {
    level != dvfs[s.current].freqKhz && IndexOf(dvfs, level, 0) < |dvfs|
  }

  /** What a request does: nothing, a failed first call, a failed second call with a roll-back that may fail
      too, or the move. */
  function Step(dvfs: seq<Opp>, fails: Oracle, s: Hw, level: nat): (r: Hw)
    requires s.current < |dvfs|
    ensures r.current < |dvfs|
  {
    var opp := IndexOf(dvfs, level, 0);
    if !Asks(dvfs, s, level) then s
    else if fails(s.calls) then s.(calls := s.calls + 1)
    else if !fails(s.calls + 1) then Hw(opp, s.calls + 2, dvfs[opp].freqKhz, dvfs[opp].voltUv)
    else if level < dvfs[s.current].freqKhz
      then s.(calls := s.calls + 3, clock := dvfs[if fails(s.calls + 2) then opp else s.current].freqKhz)
      else s.(calls := s.calls + 3, volt := dvfs[if fails(s.calls + 2) then opp else s.current].voltUv)
  }

  /** Every instant on the way: the software's operating point is still the old one. */
  function Instants(dvfs: seq<Opp>, fails: Oracle, s: Hw, level: nat): seq<Instant>
    requires s.current < |dvfs|
  {
    var opp := IndexOf(dvfs, level, 0);
    if !Asks(dvfs, s, level) then []
    else if fails(s.calls) then [Instant(s.clock, s.volt, s.current)]
    else
      var half := if level < dvfs[s.current].freqKhz then Instant(dvfs[opp].freqKhz, s.volt, s.current)
                  else Instant(s.clock, dvfs[opp].voltUv, s.current);
      var end := Step(dvfs, fails, s, level);
      if !fails(s.calls + 1) then [half, Instant(end.clock, end.volt, s.current)]
      else [half, half, Instant(end.clock, end.volt, s.current)]
  }

  /** All of them are at rest except the arrival of a move, and that one is exactly when the move is quiet. */
  lemma InstantsRest(dvfs: seq<Opp>, fails: Oracle, s: Hw, level: nat)
    requires Monotone(dvfs) && AtRest(dvfs, Instant(s.clock, s.volt, s.current))
    ensures var t, to := Instants(dvfs, fails, s, level), Step(dvfs, fails, s, level).current;
            && (forall k | 0 <= k < |t| :: t[k].current == s.current)
            && (forall k | 0 <= k < |t| - 1 :: AtRest(dvfs, t[k]))
            && (if to == s.current then forall k | 0 <= k < |t| :: AtRest(dvfs, t[k])
                else |t| > 0 && dvfs[to].freqKhz == level && Arrived(dvfs, t[|t| - 1], to)
                     && (AtRest(dvfs, t[|t| - 1]) <==> Quiet(dvfs, s.current, to)))
    ensures var r := Step(dvfs, fails, s, level); AtRest(dvfs, Instant(r.clock, r.volt, r.current))
  {
    var r := Step(dvfs, fails, s, level);
    if r.current != s.current {
      WindowIff(dvfs, Instant(r.clock, r.volt, s.current), r.current);
    }
  }

  lemma InstantsSupplied(dvfs: seq<Opp>, fails: Oracle, s: Hw, level: nat)
    requires Monotone(dvfs) && AtRest(dvfs, Instant(s.clock, s.volt, s.current))
    ensures SafeTrace(dvfs, Instants(dvfs, fails, s, level))
  {
    hide Instants, Step, Quiet;
    InstantsRest(dvfs, fails, s, level);
    var t := Instants(dvfs, fails, s, level);
    forall k | 0 <= k < |t|
      ensures Supplied(dvfs, t[k].clock, t[k].volt)
    {
      RestSupplied(dvfs, t[k], Step(dvfs, fails, s, level).current);
    }
  }

  lemma RestSupplied(dvfs: seq<Opp>, s: Instant, opp: nat)
    requires AtRest(dvfs, s) || Arrived(dvfs, s, opp)
    ensures Supplied(dvfs, s.clock, s.volt)
  {
  }

  /** Clock and voltage are those of the current operating point. */
  predicate InStep(dvfs: seq<Opp>, s: Hw)
    requires s.current < |dvfs|
  {
    s.clock == dvfs[s.current].freqKhz && s.volt == dvfs[s.current].voltUv
  }

  /** The second call and the roll-back both fail, and what was changed first now differs. */
  predicate Stranded(dvfs: seq<Opp>, fails: Oracle, s: Hw, level: nat)
    requires s.current < |dvfs|
  {
    && Asks(dvfs, s, level) && !fails(s.calls) && fails(s.calls + 1) && fails(s.calls + 2)
    && (level < dvfs[s.current].freqKhz || dvfs[IndexOf(dvfs, level, 0)].voltUv != dvfs[s.current].voltUv)
  }

  /** Exactly then a request takes the hardware out of step. */
  lemma StrandedIff(dvfs: seq<Opp>, fails: Oracle, s: Hw, level: nat)
    requires s.current < |dvfs| && InStep(dvfs, s)
    ensures InStep(dvfs, Step(dvfs, fails, s, level)) <==> !Stranded(dvfs, fails, s, level)
  {
  }

  /** No move, or one down at equal voltage. */
  predicate Quiet(dvfs: seq<Opp>, from: nat, to: nat)
    requires from < |dvfs| && to < |dvfs|
  {
    dvfs[to].freqKhz == dvfs[from].freqKhz || (dvfs[to].freqKhz < dvfs[from].freqKhz && dvfs[to].voltUv == dvfs[from].voltUv)
  }

  function Steps(dvfs: seq<Opp>, fails: Oracle, s: Hw, levels: seq<nat>): (r: Hw)
    requires s.current < |dvfs|
    ensures r.current < |dvfs|
  {
    if levels == [] then s
    else Step(dvfs, fails, Steps(dvfs, fails, s, levels[..|levels| - 1]), levels[|levels| - 1])
  }

  /** Every request that goes through is quiet. */
  predicate Calm(dvfs: seq<Opp>, fails: Oracle, s: Hw, levels: seq<nat>)
    requires s.current < |dvfs|
  {
    levels == [] || (&& Calm(dvfs, fails, s, levels[..|levels| - 1])
                     && Quiet(dvfs, Steps(dvfs, fails, s, levels[..|levels| - 1]).current, Steps(dvfs, fails, s, levels).current))
  }

  class CpuOpp {
    const dvfs: seq<Opp>
    /** Whether the n-th clock or regulator call fails. */
    const fails: Oracle
    var calls: nat
    var currentOpp: nat
    var clock: nat
    var volt: int
    ghost var trace: seq<Instant>

    ghost function Now(): Instant
      reads `clock, `volt, `currentOpp
    {
      Instant(clock, volt, currentOpp)
    }

    ghost function State(): Hw
      reads `clock, `volt, `currentOpp, `calls
    {
      Hw(currentOpp, calls, clock, volt)
    }

    ghost predicate Valid()
      reads this
    {
      Monotone(dvfs) && AtRest(dvfs, Now()) && SafeTrace(dvfs, trace)
    }

    constructor (dvfs: seq<Opp>, fails: Oracle, opp: nat)
      requires Monotone(dvfs) && opp < |dvfs|
      ensures Valid() && this.dvfs == dvfs && this.fails == fails && currentOpp == opp && trace == []
      ensures clock == dvfs[opp].freqKhz && volt == dvfs[opp].voltUv && calls == 0
    {
      this.dvfs, this.fails, calls, currentOpp := dvfs, fails, 0, opp;
      clock, volt, trace := dvfs[opp].freqKhz, dvfs[opp].voltUv, [];
    }

    /** _set_opp_clk_rate() */
    method SetOppClkRate(opp: nat) returns (failed: bool)
      requires opp < |dvfs|
      modifies `calls, `clock, `trace
      ensures failed == fails(old(calls)) && calls == old(calls) + 1
      ensures clock == (if failed then old(clock) else dvfs[opp].freqKhz) && trace == old(trace) + [Now()]
    {
      failed := fails(calls);
      calls := calls + 1;
      if !failed {
        clock := dvfs[opp].freqKhz;
      }
      trace := trace + [Now()];
    }

    /** opp_set_voltage() */
    method OppSetVoltage(uv: int) returns (failed: bool)
      modifies `calls, `volt, `trace
      ensures failed == fails(old(calls)) && calls == old(calls) + 1
      ensures volt == (if failed then old(volt) else uv) && trace == old(trace) + [Now()]
    {
      failed := fails(calls);
      calls := calls + 1;
      if !failed {
        volt := uv;
      }
      trace := trace + [Now()];
    }

    /** set_clock_then_voltage(): down, with the clock restored when the voltage does not follow. */
    method SetClockThenVoltage(opp: nat) returns (res: TeeResult)
      requires currentOpp < |dvfs| && opp < |dvfs| && opp == IndexOf(dvfs, dvfs[opp].freqKhz, 0)
      requires dvfs[opp].freqKhz < dvfs[currentOpp].freqKhz
      modifies `calls, `clock, `volt, `trace
      ensures State().(current := if res == Success then opp else currentOpp) == Step(dvfs, fails, old(State()), dvfs[opp].freqKhz)
      ensures trace == old(trace) + Instants(dvfs, fails, old(State()), dvfs[opp].freqKhz)
      ensures res == Success || (res == GenericError && exists n :: old(calls) <= n < calls && fails(n))
    {
      var failed := SetOppClkRate(opp);
      if failed {
        return GenericError;
      }
      failed := OppSetVoltage(dvfs[opp].voltUv);
      if failed {
        failed := SetOppClkRate(currentOpp);
        return GenericError;
      }
      return Success;
    }

    /** set_voltage_then_clock(): up, with the voltage restored when the clock does not follow. */
    method SetVoltageThenClock(opp: nat) returns (res: TeeResult)
      requires currentOpp < |dvfs| && opp < |dvfs| && opp == IndexOf(dvfs, dvfs[opp].freqKhz, 0)
      requires dvfs[currentOpp].freqKhz < dvfs[opp].freqKhz
      modifies `calls, `clock, `volt, `trace
      ensures State().(current := if res == Success then opp else currentOpp) == Step(dvfs, fails, old(State()), dvfs[opp].freqKhz)
      ensures trace == old(trace) + Instants(dvfs, fails, old(State()), dvfs[opp].freqKhz)
      ensures res == Success || (res == GenericError && exists n :: old(calls) <= n < calls && fails(n))
    {
      var failed := OppSetVoltage(dvfs[opp].voltUv);
      if failed {
        return GenericError;
      }
      failed := SetOppClkRate(opp);
      if failed {
        failed := OppSetVoltage(dvfs[currentOpp].voltUv);
        return GenericError;
      }
      return Success;
    }

    /** The search of stm32_cpu_opp_set_level() */
    method FindLevel(level: nat) returns (opp: nat)
      ensures opp == IndexOf(dvfs, level, 0)
    {
      opp := 0;
      while opp < |dvfs| && level != dvfs[opp].freqKhz
        invariant opp <= |dvfs| && IndexOf(dvfs, level, 0) == IndexOf(dvfs, level, opp)
      {
        opp := opp + 1;
      }
    }

    /** stm32_cpu_opp_set_level() */
    method SetLevel(level: nat) returns (res: TeeResult)
      requires Valid()
      modifies this
      ensures Valid() && State() == Step(dvfs, fails, old(State()), level)
      ensures trace == old(trace) + Instants(dvfs, fails, old(State()), level)
      ensures res == BadParameters <==> level != dvfs[old(currentOpp)].freqKhz && forall i | 0 <= i < |dvfs| :: dvfs[i].freqKhz != level
      ensures res == Success ==> dvfs[currentOpp].freqKhz == level
      ensures res == Success ==> (InStep(dvfs, State()) <==> level != dvfs[old(currentOpp)].freqKhz || InStep(dvfs, old(State())))
      ensures res != Success ==> currentOpp == old(currentOpp)
      ensures res == GenericError ==> exists n :: old(calls) <= n < calls && fails(n)
      ensures res == BadParameters || level == dvfs[old(currentOpp)].freqKhz ==> State() == old(State()) && trace == old(trace)
      ensures (forall k | |old(trace)| <= k < |trace| :: AtRest(dvfs, trace[k])) <==> Quiet(dvfs, old(currentOpp), currentOpp)
      ensures forall k | |old(trace)| <= k < |trace| :: AtRest(dvfs, trace[k]) || (Arrived(dvfs, trace[k], currentOpp) && res == Success)
    {
      InstantsRest(dvfs, fails, State(), level);
      InstantsSupplied(dvfs, fails, State(), level);
      res := Request(level);
      NewInstants(old(trace), trace, Instants(dvfs, fails, old(State()), level), old(currentOpp), currentOpp);
    }

    /** The steps of stm32_cpu_opp_set_level() */
    method Request(level: nat) returns (res: TeeResult)
      requires currentOpp < |dvfs|
      modifies this
      ensures State() == Step(dvfs, fails, old(State()), level)
      ensures trace == old(trace) + Instants(dvfs, fails, old(State()), level)
      ensures res == BadParameters <==> level != dvfs[old(currentOpp)].freqKhz && IndexOf(dvfs, level, 0) == |dvfs|
      ensures res == Success ==> dvfs[currentOpp].freqKhz == level
      ensures res == Success && level != dvfs[old(currentOpp)].freqKhz ==> InStep(dvfs, State())
      ensures res == GenericError ==> currentOpp == old(currentOpp) && exists n :: old(calls) <= n < calls && fails(n)
    {
      var currentLevel := dvfs[currentOpp].freqKhz;
      if level == currentLevel {
        return Success;
      }
      var opp := FindLevel(level);
      if opp == |dvfs| {
        return BadParameters;
      }
      if level < currentLevel {
        res := SetClockThenVoltage(opp);
      } else {
        res := SetVoltageThenClock(opp);
      }
      if res == Success {
        currentOpp := opp;
      }
    }

    lemma NewInstants(before: seq<Instant>, now: seq<Instant>, t: seq<Instant>, from: nat, to: nat)
      requires now == before + t && from < |dvfs| && to < |dvfs|
      requires forall k | 0 <= k < |t| - 1 :: AtRest(dvfs, t[k])
      requires if to == from then forall k | 0 <= k < |t| :: AtRest(dvfs, t[k])
               else |t| > 0 && Arrived(dvfs, t[|t| - 1], to) && (AtRest(dvfs, t[|t| - 1]) <==> Quiet(dvfs, from, to))
      ensures (forall k | |before| <= k < |now| :: AtRest(dvfs, now[k])) <==> Quiet(dvfs, from, to)
      ensures forall k | |before| <= k < |now| :: AtRest(dvfs, now[k]) || (Arrived(dvfs, now[k], to) && to != from)
    {
      hide AtRest, Arrived, Quiet;
      assert forall k | 0 <= k < |t| :: now[|before| + k] == t[k];
      assert to == from ==> Quiet(dvfs, from, to) by {
        QuietSelf(dvfs, from);
      }
      forall k | |before| <= k < |now|
        ensures now[k] == t[k - |before|]
      {
      }
    }
  }

  lemma QuietSelf(dvfs: seq<Opp>, i: nat)
    requires i < |dvfs|
    ensures Quiet(dvfs, i, i)
  {
  }

  /** Any sequence of requests with any pattern of failures: at every instant the voltage carries the clock,
      and in the end voltage and clock are on the safe side of the current operating point. They are so at
      every instant exactly when every request that goes through is quiet. */
  method Run(dvfs: seq<Opp>, fails: Oracle, opp: nat, levels: seq<nat>) returns (cpu: CpuOpp)
    requires Monotone(dvfs) && opp < |dvfs|
    ensures cpu.dvfs == dvfs && AtRest(dvfs, cpu.Now())
    ensures cpu.State() == Steps(dvfs, fails, Hw(opp, 0, dvfs[opp].freqKhz, dvfs[opp].voltUv), levels)
    ensures forall k, j: nat | 0 <= k < |cpu.trace| && j < |dvfs| && dvfs[j].freqKhz <= cpu.trace[k].clock ::
              dvfs[j].voltUv <= cpu.trace[k].volt
    ensures forall k | 0 <= k < |cpu.trace| :: Expected(dvfs, levels, cpu.trace[k])
    ensures (forall k | 0 <= k < |cpu.trace| :: AtRest(dvfs, cpu.trace[k]))
            <==> Calm(dvfs, fails, Hw(opp, 0, dvfs[opp].freqKhz, dvfs[opp].voltUv), levels)
  {
    hide Step, Instants, AtRest, Arrived, InStep, Quiet;
    cpu := new CpuOpp(dvfs, fails, opp);
    ghost var start := cpu.State();
    assert levels[..0] == [];
    for n := 0 to |levels|
      invariant cpu.Valid() && cpu.dvfs == dvfs && cpu.fails == fails && fresh(cpu)
      invariant cpu.State() == Steps(dvfs, fails, start, levels[..n])
      invariant forall k | 0 <= k < |cpu.trace| :: Expected(dvfs, levels, cpu.trace[k])
      invariant (forall k | 0 <= k < |cpu.trace| :: AtRest(dvfs, cpu.trace[k])) <==> Calm(dvfs, fails, start, levels[..n])
    {
      assert levels[..n + 1][..n] == levels[..n];
      ghost var before := cpu.trace;
      var res := cpu.SetLevel(levels[n]);
      assert levels[n] in levels;
      assert forall k | 0 <= k < |before| :: cpu.trace[k] == before[k];
      assert forall k | |before| <= k < |cpu.trace| :: Expected(dvfs, levels, cpu.trace[k]);
    }
    assert levels[..|levels|] == levels;
    forall k, j: nat | 0 <= k < |cpu.trace| && j < |dvfs| && dvfs[j].freqKhz <= cpu.trace[k].clock
      ensures dvfs[j].voltUv <= cpu.trace[k].volt
    {
      SuppliedDown(dvfs, cpu.trace[k].clock, cpu.trace[k].volt, j);
    }
  }

  // ---------- instances ----------

  function TwoPoints(): seq<Opp> {
    [Opp(650000, 1200000), Opp(800000, 1350000)]
  }

  /** The window is real: a plain step up records a clock above that of the remembered operating point. */
  method StaleWindow() returns (cpu: CpuOpp)
    ensures exists k :: 0 <= k < |cpu.trace| && !AtRest(cpu.dvfs, cpu.trace[k])
  {
    var dvfs := TwoPoints();
    cpu := new CpuOpp(dvfs, _ => false, 0);
    var res := cpu.SetLevel(dvfs[1].freqKhz);
    assert IndexOf(dvfs, 800000, 1) == 1;
  }

  /** A request for the current level succeeds although the clock was left at the lower rate: on the way down
      the voltage call failed, and so did the restoring of the clock. */
  method StrandedClock() returns (cpu: CpuOpp, first: TeeResult, second: TeeResult)
    ensures first == GenericError && second == Success
    ensures cpu.currentOpp == 1 && |cpu.dvfs| == 2 && cpu.dvfs[1].freqKhz == 800000 && cpu.clock == 650000
  {
    var dvfs := TwoPoints();
    cpu := new CpuOpp(dvfs, n => n > 0, 1);
    assert IndexOf(dvfs, 650000, 0) == 0;
    first := cpu.SetLevel(650000);
    second := cpu.SetLevel(800000);
  }
}
