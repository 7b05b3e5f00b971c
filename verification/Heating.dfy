/**
 The shared heating state: the decoded CAN signals with the time each was last seen, the heating
 switch with its two deadlines, and the diagnostic-session error flag. Times are in microseconds.
 Every call is one critical section; `now` is the clock stamp it uses.
 */
module Heating {
  import opened Common
  import opened Arithmetic
  import opened BitField

  const US_PER_MINUTE := 60 * 1000 * 1000
  const STALE_US := 30 * 1000 * 1000
  const UNDER_OPTIMAL := 1

  function MinutesToUs(minutes: nat): nat {
    minutes * US_PER_MINUTE
  }

  /* ---- CAN signals ---- */

  datatype Kind = HeatingStatus | ChargeTemperature | ChargeLimits | BatteryTemperature | Soc

  // What a frame of one kind reports, in the raw integers it carries.
  datatype Reading =
    | NoReading
    | HeatingReading(active: nat, request: nat, coolingRequest: nat, power: nat, powerRequest: nat)
    | ChargeTemperatureReading(status: nat)
    | ChargeLimitsReading(power: nat, current: nat)
    | BatteryTemperatureReading(minimum: nat, maximum: nat)
    | SocReading(level: nat)

  // A stored signal: its reading and the stamp of the frame it came from (0: none yet).
  datatype Signal = Signal(valid: bool, reading: Reading, seen: int) {
    function Visible(now: int): Signal {
      if Fresh(now, seen) then this else this.(valid := false)
    }
  }

  // `can_signal_is_fresh`
  predicate Fresh(now: int, seen: int) {
    seen > 0 && now - seen < STALE_US
  }

  datatype Signals = Signals(heating: Signal, charge: Signal, limits: Signal, battery: Signal, soc: Signal) {
    function At(kind: Kind): Signal {
      match kind
      case HeatingStatus => heating
      case ChargeTemperature => charge
      case ChargeLimits => limits
      case BatteryTemperature => battery
      case Soc => soc
    }

    function With(kind: Kind, s: Signal): (r: Signals)
      ensures r.At(kind) == s && forall k :: k != kind ==> r.At(k) == At(k)
    {
      match kind
      case HeatingStatus => this.(heating := s)
      case ChargeTemperature => this.(charge := s)
      case ChargeLimits => this.(limits := s)
      case BatteryTemperature => this.(battery := s)
      case Soc => this.(soc := s)
    }

    // The signals as a reader at time `now` sees them.
    function Visible(now: int): Signals {
      Signals(heating.Visible(now), charge.Visible(now), limits.Visible(now), battery.Visible(now), soc.Visible(now))
    }
  }

  const NO_SIGNAL := Signal(false, NoReading, 0)

  const ID_DIAG_RESP := 0x17FE007B
  const ID_HEATING_STATUS := 0x12DD54D2
  const ID_CHARGING_OPTIMIZATION := 0x1A5555B2
  const ID_DYNAMIC := 0x12DD54D0
  const ID_TEMPERATURE := 0x16A954A6

  // What a received message means. Positions are bits of the little-endian payload.
  datatype Meaning = Nothing | Negative | Update(kind: Kind, reading: Reading)

  function Interpret(extended: bool, id: nat, data: seq<byte>): Meaning {
    if !extended then Nothing
    else if id == ID_DIAG_RESP then
      if |data| >= 5 && data[..4] == [0x04, 0x62, 0x02, 0x8C] then
        if data[4] <= 250 then Update(Soc, SocReading(data[4])) else Nothing
      else if |data| >= 4 && data[..4] == [0x03, 0x7F, 0x2F, 0x7F] then Negative
      else Nothing
    else if id == ID_HEATING_STATUS && |data| >= 8 then
      Update(HeatingStatus,
             HeatingReading(Field(data, 38, 1), Field(data, 45, 3), Field(data, 42, 3), data[6], data[7]))
    else if id == ID_CHARGING_OPTIMIZATION && |data| >= 3 then
      Update(ChargeTemperature, ChargeTemperatureReading(Field(data, 15, 3)))
    else if id == ID_DYNAMIC && |data| >= 8 then
      Update(ChargeLimits, ChargeLimitsReading(Field(data, 51, 13), Field(data, 25, 13)))
    else if id == ID_TEMPERATURE && |data| >= 5 then
      Update(BatteryTemperature, BatteryTemperatureReading(data[4], data[3]))
    else Nothing
  }

  /* ---- The messages, one by one ---- */

  // Which messages carry which signal: identifier, least length and, for diagnostic responses, the
  // bytes in front.
  predicate Carries(kind: Kind, id: nat, data: seq<byte>) {
    match kind
    case HeatingStatus => id == 0x12DD54D2 && |data| >= 8
    case ChargeTemperature => id == 0x1A5555B2 && |data| >= 3
    case ChargeLimits => id == 0x12DD54D0 && |data| >= 8
    case BatteryTemperature => id == 0x16A954A6 && |data| >= 5
    case Soc =>
      && id == 0x17FE007B && |data| >= 5
      && data[0] == 0x04 && data[1] == 0x62 && data[2] == 0x02 && data[3] == 0x8C && data[4] <= 250
  }

  // What such a message reports: the bits, counted from the first byte's lowest, and the bytes.
  function Carried(kind: Kind, id: nat, data: seq<byte>): Reading
    requires Carries(kind, id, data)
  {
    match kind
    case HeatingStatus =>
      HeatingReading(Field(data, 38, 1), Field(data, 45, 3), Field(data, 42, 3), data[6], data[7])
    case ChargeTemperature => ChargeTemperatureReading(Field(data, 15, 3))
    case ChargeLimits => ChargeLimitsReading(Field(data, 51, 13), Field(data, 25, 13))
    case BatteryTemperature => BatteryTemperatureReading(data[4], data[3])
    case Soc => SocReading(data[4])
  }

  // The response that rejects the routine.
  predicate Rejects(id: nat, data: seq<byte>) {
    && id == 0x17FE007B && |data| >= 4
    && data[0] == 0x03 && data[1] == 0x7F && data[2] == 0x2F && data[3] == 0x7F
  }

  // A message updates a signal, with what it reports, or counts as a negative response, exactly when it
  // is one of these.
  lemma InterpretExactly(extended: bool, id: nat, data: seq<byte>, kind: Kind)
    ensures Interpret(extended, id, data) == Negative <==> extended && Rejects(id, data)
    ensures extended && Carries(kind, id, data) <==>
              Interpret(extended, id, data).Update? && Interpret(extended, id, data).kind == kind
    ensures extended && Carries(kind, id, data) ==>
              Interpret(extended, id, data) == Update(kind, Carried(kind, id, data))
  {
    hide Field;
    if |data| >= 4 {
      assert data[..4] == [data[0], data[1], data[2], data[3]];
    }
  }

  /* ---- The state ---- */

  datatype State = State(enabled: bool, timerMinutes: uint32, since: int, userDeadline: int,
                         sessionError: bool, signals: Signals)

  const INITIAL := State(false, 0, 0, 0, false, Signals(NO_SIGNAL, NO_SIGNAL, NO_SIGNAL, NO_SIGNAL, NO_SIGNAL))

  // `limit` is the safety limit in minutes; 0 when it is configured off.
  function SafetyDeadline(limit: nat, s: State): int {
    if s.since > 0 && limit > 0 then s.since + MinutesToUs(limit) else 0
  }

  function EffectiveDeadline(limit: nat, s: State): int {
    var safety := SafetyDeadline(limit, s);
    if safety > 0 && (s.userDeadline == 0 || safety < s.userDeadline) then safety else s.userDeadline
  }

  function SetHeatingSpec(s: State, on: bool, now: int): State {
    if !on then s.(enabled := false, since := 0, userDeadline := 0)
    else if s.enabled then s
    else s.(enabled := true, since := now,
            userDeadline := if s.timerMinutes > 0 then now + MinutesToUs(s.timerMinutes) else 0)
  }

  function SetTimerSpec(s: State, minutes: uint32, now: int): State {
    s.(timerMinutes := minutes,
       userDeadline := if s.enabled && minutes > 0 then now + MinutesToUs(minutes) else 0)
  }

  datatype Reason = NotOff | Timer | Safety

  function ApplyAutoOffSpec(limit: nat, s: State, now: int): (State, Reason) {
    var deadline := EffectiveDeadline(limit, s);
    if s.enabled && deadline > 0 && now >= deadline then
      (s.(enabled := false, since := 0, userDeadline := 0),
       if s.userDeadline > 0 && s.userDeadline <= deadline then Timer else Safety)
    else (s, NotOff)
  }

  function ReceiveSpec(s: State, extended: bool, id: nat, data: seq<byte>, now: int): State {
    match Interpret(extended, id, data)
    case Nothing => s
    case Negative => s.(sessionError := true)
    case Update(kind, reading) => s.(signals := s.signals.With(kind, Signal(true, reading, now)))
  }

  // Minutes left, rounded up; computed in 64 bits, then cut to 32.
  function RemainingMinutes(remaining: int): uint32 {
    if remaining <= 0 then 0 else (remaining + US_PER_MINUTE - 1) / US_PER_MINUTE % 0x1_0000_0000
  }

  datatype Snapshot = Snapshot(enabled: bool, timerEnabled: bool, timerMinutes: uint32, sessionError: bool,
                               signals: Signals, remaining: Option<uint32>)

  function SnapshotSpec(limit: nat, s: State, now: int): Snapshot {
    var deadline := EffectiveDeadline(limit, s);
    Snapshot(s.enabled, s.timerMinutes > 0, s.timerMinutes, s.sessionError,
             s.signals.Visible(now),
             if s.enabled && deadline > 0 then Some(RemainingMinutes(deadline - now)) else None)
  }

  /* ---- The state as the firmware keeps it ---- */

  class AppState {
    const limit: nat
    var enabled: bool
    var timerMinutes: uint32
    var since: int
    var userDeadline: int
    var sessionError: bool
    var heating: Signal
    var charge: Signal
    var limits: Signal
    var battery: Signal
    var soc: Signal

    function Current(): State
      reads this
    {
      State(enabled, timerMinutes, since, userDeadline, sessionError,
                    Signals(heating, charge, limits, battery, soc))
    }

    constructor (limit: nat)
      ensures Current() == INITIAL && this.limit == limit
    {
      this.limit := limit;
      enabled, timerMinutes, since, userDeadline, sessionError := false, 0, 0, 0, false;
      heating, charge, limits, battery, soc := NO_SIGNAL, NO_SIGNAL, NO_SIGNAL, NO_SIGNAL, NO_SIGNAL;
    }

    method SafetyAutoOffDeadline() returns (deadline: int)
      ensures deadline == SafetyDeadline(limit, Current())
    {
      if since > 0 && limit > 0 {
        return since + MinutesToUs(limit);
      }
      deadline := 0;
    }

    method EffectiveAutoOffDeadline() returns (deadline: int)
      ensures deadline == EffectiveDeadline(limit, Current())
    {
      deadline := userDeadline;
      var safety := SafetyAutoOffDeadline();
      if safety > 0 && (deadline == 0 || safety < deadline) {
        deadline := safety;
      }
    }

    method SetHeatingEnabled(on: bool, now: int) returns (changed: bool)
      modifies this
      ensures Current() == SetHeatingSpec(old(Current()), on, now)
      ensures enabled == on && (changed <==> old(enabled) != on)
      // Enabling again, or switching off what is off, changes nothing.
      ensures on && !changed ==> Current() == old(Current())
      ensures !on ==> EffectiveDeadline(limit, Current()) == 0
    {
      changed := enabled != on;
      if on {
        if !enabled {
          since := now;
          userDeadline := if timerMinutes > 0 then now + MinutesToUs(timerMinutes) else 0;
        }
      } else {
        since := 0;
        userDeadline := 0;
      }
      enabled := on;
    }

    method SetAutoOffTimerMinutes(minutes: uint32, now: int)
      modifies this
      ensures Current() == SetTimerSpec(old(Current()), minutes, now)
      // The safety deadline does not move.
      ensures SafetyDeadline(limit, Current()) == old(SafetyDeadline(limit, Current()))
      ensures enabled == old(enabled) && (minutes == 0 ==> userDeadline == 0)
    {
      timerMinutes := minutes;
      if enabled {
        userDeadline := if minutes > 0 then now + MinutesToUs(minutes) else 0;
      } else {
        userDeadline := 0;
      }
    }

    method ApplyAutoOff(now: int) returns (reason: Reason)
      modifies this
      ensures (Current(), reason) == ApplyAutoOffSpec(limit, old(Current()), now)
      ensures reason == NotOff ==> Current() == old(Current())
      ensures reason != NotOff ==> old(enabled) && !enabled && now >= old(EffectiveDeadline(limit, Current())) > 0
    {
      reason := NotOff;
      if enabled {
        var user := userDeadline;
        var safety := SafetyAutoOffDeadline();
        var deadline := user;
        if safety > 0 && (deadline == 0 || safety < deadline) {
          deadline := safety;
        }
        if deadline > 0 && now >= deadline {
          if user > 0 && user <= deadline {
            reason := Timer;
          } else {
            reason := Safety;
          }
          enabled := false;
          since := 0;
          userDeadline := 0;
        }
      }
    }

    method TakeSessionError() returns (error: bool)
      modifies this
      ensures error == old(sessionError) && Current() == old(Current()).(sessionError := false)
    {
      error := sessionError;
      sessionError := false;
    }

    // `process_rx_message` and the five decoders, with the firmware's byte arithmetic.
    method ProcessRxMessage(extended: bool, id: nat, data: seq<byte>, now: int)
      modifies this
      ensures Current() == ReceiveSpec(old(Current()), extended, id, data, now)
      // Each signal is set by its own messages only, from these bits and bytes.
      ensures heating
              == if extended && id == 0x12DD54D2 && |data| >= 8
                 then Signal(true, HeatingReading(Field(data, 38, 1), Field(data, 45, 3), Field(data, 42, 3),
                                                  data[6], data[7]), now)
                 else old(heating)
      ensures charge
              == if extended && id == 0x1A5555B2 && |data| >= 3
                 then Signal(true, ChargeTemperatureReading(Field(data, 15, 3)), now)
                 else old(charge)
      ensures limits
              == if extended && id == 0x12DD54D0 && |data| >= 8
                 then Signal(true, ChargeLimitsReading(Field(data, 51, 13), Field(data, 25, 13)), now)
                 else old(limits)
      ensures battery
              == if extended && id == 0x16A954A6 && |data| >= 5
                 then Signal(true, BatteryTemperatureReading(data[4], data[3]), now)
                 else old(battery)
      ensures soc
              == if extended && id == 0x17FE007B && |data| >= 5 && data[..4] == [0x04, 0x62, 0x02, 0x8C]
                    && data[4] <= 250
                 then Signal(true, SocReading(data[4]), now)
                 else old(soc)
      ensures sessionError
              == (old(sessionError)
                  || (extended && id == 0x17FE007B && |data| >= 4 && data[..4] == [0x03, 0x7F, 0x2F, 0x7F]))
      ensures enabled == old(enabled) && timerMinutes == old(timerMinutes)
      ensures since == old(since) && userDeadline == old(userDeadline)
    {
      hide Field;
      if !extended {
        return;
      }
      if id == ID_DIAG_RESP {
        UpdateDiagResponse(data, now);
      } else if id == ID_HEATING_STATUS && |data| >= 8 {
        HeatingBits(data);
        heating := Signal(true, HeatingReading(data[4] / 64 % 2, data[5] / 32, data[5] / 4 % 8, data[6], data[7]), now);
      } else if id == ID_CHARGING_OPTIMIZATION && |data| >= 3 {
        ChargeBits(data);
        charge := Signal(true, ChargeTemperatureReading(data[2] as int % 4 * 2 + data[1] / 128), now);
      } else if id == ID_DYNAMIC && |data| >= 8 {
        LimitBits(data);
        limits := Signal(true, ChargeLimitsReading(data[7] as int * 32 + data[6] / 8,
                                                   data[4] as int % 64 * 128 + data[3] / 2), now);
      } else if id == ID_TEMPERATURE && |data| >= 5 {
        battery := Signal(true, BatteryTemperatureReading(data[4], data[3]), now);
      }
    }

    method UpdateDiagResponse(data: seq<byte>, now: int)
      modifies this
      ensures Current() == ReceiveSpec(old(Current()), true, ID_DIAG_RESP, data, now)
    {
      if |data| >= 5 && data[0] == 0x04 && data[1] == 0x62 && data[2] == 0x02 && data[3] == 0x8C {
        assert data[..4] == [0x04, 0x62, 0x02, 0x8C];
        if data[4] <= 250 {
          soc := Signal(true, SocReading(data[4]), now);
        }
        return;
      }
      if |data| >= 4 && data[0] == 0x03 && data[1] == 0x7F && data[2] == 0x2F && data[3] == 0x7F {
        assert data[..4] == [0x03, 0x7F, 0x2F, 0x7F];
        sessionError := true;
      } else if |data| >= 4 {
        assert data[..4] == [data[0], data[1], data[2], data[3]];
      }
    }

    method InvalidateStale(now: int) returns (visible: Signals)
      ensures visible == Current().signals.Visible(now)
    {
      var h, c, l, b, s := heating, charge, limits, battery, soc;
      if !Fresh(now, h.seen) { h := h.(valid := false); }
      if !Fresh(now, c.seen) { c := c.(valid := false); }
      if !Fresh(now, l.seen) { l := l.(valid := false); }
      if !Fresh(now, b.seen) { b := b.(valid := false); }
      if !Fresh(now, s.seen) { s := s.(valid := false); }
      visible := Signals(h, c, l, b, s);
    }

    method GetSnapshot(now: int) returns (snapshot: Snapshot)
      ensures snapshot == SnapshotSpec(limit, Current(), now)
      ensures snapshot.enabled == enabled && snapshot.sessionError == sessionError
      ensures snapshot.timerMinutes == timerMinutes && (snapshot.timerEnabled <==> timerMinutes > 0)
    {
      hide EffectiveDeadline, RemainingMinutes;
      var visible := InvalidateStale(now);
      var remaining: Option<uint32> := None;
      var deadline := EffectiveAutoOffDeadline();
      if enabled && deadline > 0 {
        remaining := Some(RemainingMinutes(deadline - now));
      }
      snapshot := Snapshot(enabled, timerMinutes > 0, timerMinutes, sessionError, visible, remaining);
    }
  }

  /* ---- The byte arithmetic reads the bit-fields ---- */

  lemma HeatingBits(data: seq<byte>)
    requires |data| >= 8
    ensures Field(data, 38, 1) == data[4] / 64 % 2
    ensures Field(data, 45, 3) == data[5] / 32
    ensures Field(data, 42, 3) == data[5] / 4 % 8
  {
    hide Field;
    BitInByte(data, 4);
    TopBitsOfByte(data, 5);
    MiddleBitsOfByte(data, 5);
  }

  lemma BitInByte(data: seq<byte>, n: nat)
    requires n < |data|
    ensures Field(data, 8 * n + 6, 1) == data[n] / 64 % 2
  {
    SmallPowers();
    FieldFrom(data, n, 6, 1);
    hide Field, LittleEndian, Pow2;
    var r := OneByte(data, n);
    ByteBits(data[n], r);
  }

  lemma TopBitsOfByte(data: seq<byte>, n: nat)
    requires n < |data|
    ensures Field(data, 8 * n + 5, 3) == data[n] / 32
  {
    SmallPowers();
    FieldFrom(data, n, 5, 3);
    hide Field, LittleEndian, Pow2;
    var r := OneByte(data, n);
    ByteBits(data[n], r);
  }

  lemma MiddleBitsOfByte(data: seq<byte>, n: nat)
    requires n < |data|
    ensures Field(data, 8 * n + 2, 3) == data[n] / 4 % 8
  {
    SmallPowers();
    FieldFrom(data, n, 2, 3);
    hide Field, LittleEndian, Pow2;
    var r := OneByte(data, n);
    ByteBits(data[n], r);
  }

  lemma ByteBits(a: nat, r: nat)
    requires a < 256
    ensures (a + 256 * r) / 64 % 2 == a / 64 % 2
    ensures (a + 256 * r) / 32 % 8 == a / 32
    ensures (a + 256 * r) / 4 % 8 == a / 4 % 8
  {
    ShiftSum(a, 4 * r, 64);
    ModuloSum(a / 64, 2 * r, 2);
    ShiftSum(a, 8 * r, 32);
    ModuloSum(a / 32, r, 8);
    ShiftSum(a, 64 * r, 4);
    ModuloSum(a / 4, 8 * r, 8);
  }

  lemma ChargeBits(data: seq<byte>)
    requires |data| >= 3
    ensures Field(data, 15, 3) == data[2] as int % 4 * 2 + data[1] / 128
  {
    SmallPowers();
    FieldFrom(data, 1, 7, 3);
    hide Field, LittleEndian, Pow2;
    var r := TwoBytes(data, 1);
    ShiftBy7(data[1], data[2], r);
  }

  lemma ShiftBy7(a: nat, b: nat, r: nat)
    requires a < 256 && b < 256
    ensures (a + 256 * b + 65536 * r) / 128 % 8 == b % 4 * 2 + a / 128
  {
    ShiftSum(a, 2 * b + 512 * r, 128);
    ModuloSum(a / 128 + 2 * (b % 4), b / 4 + 64 * r, 8);
  }

  lemma LimitBits(data: seq<byte>)
    requires |data| >= 8
    ensures Field(data, 51, 13) == data[7] as int * 32 + data[6] / 8
    ensures Field(data, 25, 13) == data[4] as int % 64 * 128 + data[3] / 2
  {
    hide Field;
    PowerBits(data, 6);
    CurrentBits(data, 3);
  }

  lemma PowerBits(data: seq<byte>, n: nat)
    requires n + 1 < |data|
    ensures Field(data, 8 * n + 3, 13) == data[n + 1] as int * 32 + data[n] / 8
  {
    SmallPowers();
    FieldFrom(data, n, 3, 13);
    hide Field, LittleEndian, Pow2;
    var r := TwoBytes(data, n);
    ShiftBy3(data[n], data[n + 1], r);
  }

  lemma CurrentBits(data: seq<byte>, n: nat)
    requires n + 1 < |data|
    ensures Field(data, 8 * n + 1, 13) == data[n + 1] as int % 64 * 128 + data[n] / 2
  {
    SmallPowers();
    FieldFrom(data, n, 1, 13);
    hide Field, LittleEndian, Pow2;
    var r := TwoBytes(data, n);
    ShiftBy1(data[n], data[n + 1], r);
  }

  lemma ShiftBy3(a: nat, b: nat, r: nat)
    requires a < 256 && b < 256
    ensures (a + 256 * b + 65536 * r) / 8 % 8192 == b * 32 + a / 8
  {
    ShiftSum(a, 32 * b + 8192 * r, 8);
    ModuloSum(a / 8 + 32 * b, r, 8192);
  }

  lemma ShiftBy1(a: nat, b: nat, r: nat)
    requires a < 256 && b < 256
    ensures (a + 256 * b + 65536 * r) / 2 % 8192 == b % 64 * 128 + a / 2
  {
    ShiftSum(a, 128 * b + 32768 * r, 2);
    ModuloSum(a / 2 + 128 * (b % 64), b / 64 + 4 * r, 8192);
  }
}
