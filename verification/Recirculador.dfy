/** The application's pump tasks over the register file and the pins: button interrupt, control step,
    and the error word. */
module Recirculador {
  import opened Arithmetic
  import opened PumpControl
  import opened Registers
  import Scheduling

  // ---- Addresses ----

  const PUMP := OFFSET_BOOL
  const BUTTON := OFFSET_BOOL + 1
  const TIMESTAMP := OFFSET_INT
  const S1_TEMP := OFFSET_INT + 6
  const S2_TEMP := OFFSET_INT + 9
  const ERRORS := OFFSET_INT + 13
  const S1_TEMP_REF := OFFSET_INT + 17
  const S1_TEMP_HYSTERESIS := OFFSET_INT + 18
  const S1_ERROR_HIGH := OFFSET_INT + 22
  const S2_TEMP_REF := OFFSET_INT + 26
  const S2_TEMP_HYSTERESIS := OFFSET_INT + 27
  const S2_ERROR_HIGH := OFFSET_INT + 31
  const TIME_RECIRCULATION := OFFSET_INT + 39
  const TEMP_REF_RECIRCULATION := OFFSET_INT + 40
  const SCHEDULES := OFFSET_INT + 41

  // ---- Pins ----

  const PIN_PUMP := 17
  const PIN_BUTTON := 9

  class Gpio {
    var inputs: set<nat>
    var outputs: set<nat>
    var levels: map<nat, bool>

    constructor ()
      ensures inputs == {} && outputs == {} && levels == map[]
    {
      inputs, outputs, levels := {}, {}, map[];
    }

    method ConfigPinInput(pin: nat)
      modifies this`inputs, this`outputs
      ensures inputs == old(inputs) + {pin} && outputs == old(outputs) - {pin}
    {
      inputs := inputs + {pin};
      outputs := outputs - {pin};
    }

    method ConfigPinOutput(pin: nat)
      modifies this`inputs, this`outputs
      ensures inputs == old(inputs) - {pin} && outputs == old(outputs) + {pin}
    {
      inputs := inputs - {pin};
      outputs := outputs + {pin};
    }

    predicate Level(pin: nat)
      reads this
    {
      pin in levels && levels[pin]
    }

    /** An output pin always reads as low. */
    predicate ReadPin(pin: nat)
      reads this
    {
      pin in inputs && Level(pin)
    }

    method SetPin(pin: nat)
      modifies this`levels
      ensures levels == if pin in outputs then old(levels)[pin := true] else old(levels)
    {
      if pin in outputs {
        levels := levels[pin := true];
      }
    }

    method ClearPin(pin: nat)
      modifies this`levels
      ensures levels == if pin in outputs then old(levels)[pin := false] else old(levels)
    {
      if pin in outputs {
        levels := levels[pin := false];
      }
    }
  }

  // ---- Reading the registers ----

  function Unsigned32(x: int32): uint32 { x % 0x1_0000_0000 }

  function Word(x: int32): bv32 { Unsigned32(x) as bv32 }

  /** An integer register, out of the array's contents. */
  function Int(ints: seq<int32>, addr: nat): int32
    requires |ints| == INT_COUNT && 0 <= GetIndex(addr) < INT_COUNT
  {
    ints[GetIndex(addr)]
  }

  function Schedule(ints: seq<int32>): (s: seq<bv32>)
    requires |ints| == INT_COUNT
    ensures |s| == Scheduling.SCHEDULE_COUNT
  {
    seq(Scheduling.SCHEDULE_COUNT, k requires 0 <= k < Scheduling.SCHEDULE_COUNT => Word(ints[GetIndex(SCHEDULES) + k]))
  }

  /** What one control step goes by: the sensor chosen for recirculation, and whether the schedule
      covers the current timestamp. */
  ghost function InputsOf(ints: seq<int32>, now: nat): Inputs
    requires |ints| == INT_COUNT
  {
    var first := Int(ints, TEMP_REF_RECIRCULATION) == 0;
    Inputs(
      Int(ints, ERRORS),
      if first then Int(ints, S1_TEMP) else Int(ints, S2_TEMP),
      if first then Int(ints, S1_TEMP_REF) else Int(ints, S2_TEMP_REF),
      if first then Int(ints, S1_TEMP_HYSTERESIS) else Int(ints, S2_TEMP_HYSTERESIS),
      Int(ints, TIME_RECIRCULATION),
      Scheduling.Scheduled(Schedule(ints), Unsigned32(Int(ints, TIMESTAMP))),
      now)
  }

  // ---- The error word ----

  /** The four fault bits of a sensor, tested in the order of the source. */
  function SensorError(measure: int, disconnect: int, short: int, high: int, low: int): (code: nat)
    ensures code < 16
  {
    if measure > disconnect then 8
    else if measure < short then 4
    else if measure > high then 1
    else if measure < low then 2
    else 0
  }

  predicate Healthy(measure: int, disconnect: int, short: int, high: int, low: int) {
    short <= measure <= disconnect && low <= measure <= high
  }

  /** The limits lie in the registers in the order high, low, disconnect, short circuit. */
  function SensorErrorAt(ints: seq<int32>, temp: nat, limits: nat): (code: nat)
    requires |ints| == INT_COUNT && 0 <= GetIndex(temp) < INT_COUNT
    requires OFFSET_INT <= limits < OFFSET_INT + INT_COUNT - 3
    ensures code < 16
  {
    SensorError(Int(ints, temp), Int(ints, limits + 2), Int(ints, limits + 3), Int(ints, limits), Int(ints, limits + 1))
  }

  predicate HealthyAt(ints: seq<int32>, temp: nat, limits: nat)
    requires |ints| == INT_COUNT && 0 <= GetIndex(temp) < INT_COUNT
    requires OFFSET_INT <= limits < OFFSET_INT + INT_COUNT - 3
  {
    Healthy(Int(ints, temp), Int(ints, limits + 2), Int(ints, limits + 3), Int(ints, limits), Int(ints, limits + 1))
  }

  /** Both sensors use the first sensor's codes, so the word does not tell them apart. */
  function ErrorWord(ints: seq<int32>): (word: nat)
    requires |ints| == INT_COUNT
    ensures word < 16
  {
    Or(Or(0, SensorErrorAt(ints, S1_TEMP, S1_ERROR_HIGH)), SensorErrorAt(ints, S2_TEMP, S2_ERROR_HIGH))
  }

  /** Bitwise or of fault codes. */
  function Or(a: nat, b: nat): (c: nat)
    requires a < 16 && b < 16
    ensures c < 16 && (c == 0 <==> a == 0 && b == 0)
  {
    OrOfCodes(a as bv4, b as bv4);
    ((a as bv4) | (b as bv4)) as int
  }

  lemma OrOfCodes(a: bv4, b: bv4)
    ensures a | b == 0 <==> a == 0 && b == 0
  {}

  /** The error word is clear exactly when both sensors are within all their limits. */
  lemma ClearIffHealthy(ints: seq<int32>)
    requires |ints| == INT_COUNT
    ensures ErrorWord(ints) == 0 <==> HealthyAt(ints, S1_TEMP, S1_ERROR_HIGH) && HealthyAt(ints, S2_TEMP, S2_ERROR_HIGH)
  {
    hide Int, Or;
    assert SensorErrorAt(ints, S1_TEMP, S1_ERROR_HIGH) == 0 <==> HealthyAt(ints, S1_TEMP, S1_ERROR_HIGH);
    assert SensorErrorAt(ints, S2_TEMP, S2_ERROR_HIGH) == 0 <==> HealthyAt(ints, S2_TEMP, S2_ERROR_HIGH);
  }

  /** The measurement and the four limits of one sensor in a are those of another in b. */
  predicate SameSensor(a: seq<int32>, temp: nat, limits: nat, b: seq<int32>, temp': nat, limits': nat)
    requires |a| == INT_COUNT && 0 <= GetIndex(temp) < INT_COUNT
    requires |b| == INT_COUNT && 0 <= GetIndex(temp') < INT_COUNT
    requires OFFSET_INT <= limits < OFFSET_INT + INT_COUNT - 3
    requires OFFSET_INT <= limits' < OFFSET_INT + INT_COUNT - 3
  {
    && Int(a, temp) == Int(b, temp')
    && Int(a, limits) == Int(b, limits') && Int(a, limits + 1) == Int(b, limits' + 1)
    && Int(a, limits + 2) == Int(b, limits' + 2) && Int(a, limits + 3) == Int(b, limits' + 3)
  }

  /** Exchanging the two sensors does not change the word. */
  lemma SensorsIndistinct(a: seq<int32>, b: seq<int32>)
    requires |a| == INT_COUNT && |b| == INT_COUNT
    requires SameSensor(a, S1_TEMP, S1_ERROR_HIGH, b, S2_TEMP, S2_ERROR_HIGH)
    requires SameSensor(a, S2_TEMP, S2_ERROR_HIGH, b, S1_TEMP, S1_ERROR_HIGH)
    ensures ErrorWord(a) == ErrorWord(b)
  {
    hide Int, SensorError;
    OrCommutes(SensorErrorAt(a, S1_TEMP, S1_ERROR_HIGH), SensorErrorAt(a, S2_TEMP, S2_ERROR_HIGH));
  }

  lemma OrCommutes(a: nat, b: nat)
    requires a < 16 && b < 16
    ensures Or(Or(0, a), b) == Or(Or(0, b), a)
  {
    OrWithNothing(a);
    OrWithNothing(b);
    OrSwap(a, b);
    hide Or;
  }

  lemma OrWithNothing(a: nat)
    requires a < 16
    ensures Or(0, a) == a
  {
    ZeroBits(a as bv4);
  }

  lemma ZeroBits(a: bv4)
    ensures 0 | a == a
  {}

  lemma OrSwap(a: nat, b: nat)
    requires a < 16 && b < 16
    ensures Or(a, b) == Or(b, a)
  {
    BitsSwap(a as bv4, b as bv4);
  }

  lemma BitsSwap(a: bv4, b: bv4)
    ensures a | b == b | a
  {}

  // ---- Which bit stands for which limit ----

  predicate Open(measure: int, disconnect: int) { measure > disconnect }

  predicate Shorted(measure: int, disconnect: int, short: int) { measure < short && !Open(measure, disconnect) }

  predicate TooHigh(measure: int, disconnect: int, short: int, high: int) {
    measure > high && short <= measure <= disconnect
  }

  predicate TooLow(measure: int, disconnect: int, short: int, high: int, low: int) {
    measure < low && measure <= high && short <= measure <= disconnect
  }

  /** Bit j of a fault word. */
  predicate HasBit(word: nat, j: nat)
    requires word < 16 && j < 4
  {
    word / [1, 2, 4, 8][j] % 2 == 1
  }

  lemma OrHasBit(a: nat, b: nat, j: nat)
    requires a < 16 && b < 16 && j < 4
    ensures HasBit(Or(a, b), j) <==> HasBit(a, j) || HasBit(b, j)
  {
    OrIsBitwise(a, b);
    OrBits(a as bv4, b as bv4);
    hide HasBit, Or;
    FourBits(a);
    FourBits(b);
    FourBits(Or(a, b));
    if j < 2 {
      if j == 0 {} else {}
    } else {
      if j == 2 {} else {}
    }
  }

  lemma OrIsBitwise(a: nat, b: nat)
    requires a < 16 && b < 16
    ensures Or(a, b) as bv4 == (a as bv4) | (b as bv4)
  {}

  lemma FourBits(a: nat)
    requires a < 16
    ensures HasBit(a, 0) <==> (a as bv4) & 1 != 0
    ensures HasBit(a, 1) <==> (a as bv4) & 2 != 0
    ensures HasBit(a, 2) <==> (a as bv4) & 4 != 0
    ensures HasBit(a, 3) <==> (a as bv4) & 8 != 0
  {
    if a < 8 {
      if a < 4 {
        if a == 0 {} else if a == 1 {} else if a == 2 {} else {}
      } else {
        if a == 4 {} else if a == 5 {} else if a == 6 {} else {}
      }
    } else if a < 12 {
      if a == 8 {} else if a == 9 {} else if a == 10 {} else {}
    } else {
      if a == 12 {} else if a == 13 {} else if a == 14 {} else {}
    }
  }

  lemma OrBits(a: bv4, b: bv4)
    ensures (a | b) & 1 != 0 <==> a & 1 != 0 || b & 1 != 0
    ensures (a | b) & 2 != 0 <==> a & 2 != 0 || b & 2 != 0
    ensures (a | b) & 4 != 0 <==> a & 4 != 0 || b & 4 != 0
    ensures (a | b) & 8 != 0 <==> a & 8 != 0 || b & 8 != 0
  {}

  lemma SensorBits(m: int, disconnect: int, short: int, high: int, low: int)
    ensures var code := SensorError(m, disconnect, short, high, low);
            && (HasBit(code, 0) <==> TooHigh(m, disconnect, short, high))
            && (HasBit(code, 1) <==> TooLow(m, disconnect, short, high, low))
            && (HasBit(code, 2) <==> Shorted(m, disconnect, short))
            && (HasBit(code, 3) <==> Open(m, disconnect))
  {}

  /** Bit 0 of the word is set exactly when a sensor is too hot, bit 1 when one is too cold, bit 2 when
      one is shorted, and bit 3 when one is open; the electrical faults hide the other two. */
  lemma ErrorBits(ints: seq<int32>)
    requires |ints| == INT_COUNT
    ensures var word := ErrorWord(ints);
            var m1, high1, low1, open1, short1 := ints[6], ints[22], ints[23], ints[24], ints[25];
            var m2, high2, low2, open2, short2 := ints[9], ints[31], ints[32], ints[33], ints[34];
            && (HasBit(word, 0) <==> TooHigh(m1, open1, short1, high1) || TooHigh(m2, open2, short2, high2))
            && (HasBit(word, 1) <==> TooLow(m1, open1, short1, high1, low1) || TooLow(m2, open2, short2, high2, low2))
            && (HasBit(word, 2) <==> Shorted(m1, open1, short1) || Shorted(m2, open2, short2))
            && (HasBit(word, 3) <==> Open(m1, open1) || Open(m2, open2))
  {
    var a, b := SensorErrorAt(ints, S1_TEMP, S1_ERROR_HIGH), SensorErrorAt(ints, S2_TEMP, S2_ERROR_HIGH);
    SensorBits(ints[6], ints[24], ints[25], ints[22], ints[23]);
    SensorBits(ints[9], ints[33], ints[34], ints[31], ints[32]);
    hide HasBit, Or, TooHigh, TooLow, Shorted, Open, SensorError;
    OrWithNothing(a);
    forall j | 0 <= j < 4
      ensures HasBit(Or(Or(0, a), b), j) <==> HasBit(a, j) || HasBit(b, j)
    {
      OrHasBit(a, b, j);
    }
  }

  // ---- Which sensor controls the pump ----

  /** Two contents that agree on all registers but the three of one sensor. */
  predicate AgreeBut(a: seq<int32>, b: seq<int32>, temp: nat, ref: nat, hysteresis: nat) {
    |a| == |b| == INT_COUNT && forall k :: 0 <= k < INT_COUNT && k != temp && k != ref && k != hysteresis ==> a[k] == b[k]
  }

  lemma SameSchedule(a: seq<int32>, b: seq<int32>)
    requires |a| == |b| == INT_COUNT && forall k :: 41 <= k < 51 ==> a[k] == b[k]
    ensures Schedule(a) == Schedule(b)
  {
    forall k | 0 <= k < Scheduling.SCHEDULE_COUNT
      ensures Schedule(a)[k] == Schedule(b)[k]
    {
      assert GetIndex(SCHEDULES) + k == 41 + k;
      assert a[41 + k] == b[41 + k];
    }
  }

  /** With the selector register at 0 the second sensor's registers make no difference to the control,
      and with any other value the first one's do not. */
  lemma SelectorDecides(a: seq<int32>, b: seq<int32>, now: nat)
    requires |a| == |b| == INT_COUNT
    ensures AgreeBut(a, b, 9, 26, 27) && a[40] == 0 ==> InputsOf(a, now) == InputsOf(b, now)
    ensures AgreeBut(a, b, 6, 17, 18) && a[40] != 0 ==> InputsOf(a, now) == InputsOf(b, now)
  {
    if AgreeBut(a, b, 9, 26, 27) {
      SameSchedule(a, b);
    }
    if AgreeBut(a, b, 6, 17, 18) {
      SameSchedule(a, b);
    }
    hide Schedule, Scheduling.Scheduled;
  }

  /** The control goes by the chosen sensor's measurement, reference and hysteresis. */
  lemma SelectorChooses(ints: seq<int32>, now: nat)
    requires |ints| == INT_COUNT
    ensures var i := InputsOf(ints, now);
            && i.errors == ints[13] && i.timeLimit == ints[39] && i.now == now
            && (i.scheduled <==> Scheduling.Scheduled(Schedule(ints), (ints[0] as int) % 0x1_0000_0000))
            && i.temp == (if ints[40] == 0 then ints[6] else ints[9])
            && i.ref == (if ints[40] == 0 then ints[17] else ints[26])
            && i.hysteresis == (if ints[40] == 0 then ints[18] else ints[27])
  {}

  /** The schedule's words are the ten registers from the forty-first on, read as unsigned. */
  lemma ScheduleWord(ints: seq<int32>, k: nat)
    requires |ints| == INT_COUNT && k < 10
    ensures Schedule(ints)[k] == ((ints[41 + k] as int) + if ints[41 + k] < 0 then 0x1_0000_0000 else 0) as bv32
  {
    assert GetIndex(SCHEDULES) + k == 41 + k;
    UnsignedIs(ints[41 + k]);
    assert Schedule(ints)[k] == Word(ints[41 + k]);
    hide Schedule, Unsigned32;
  }

  lemma UnsignedIs(x: int32)
    ensures Unsigned32(x) == (x as int) + if x < 0 then 0x1_0000_0000 else 0
  {}

  // ---- The controller ----

  class Controller {
    const regs: RegisterFile
    const gpio: Gpio
    var lastClick: nat
    var latch: bool

    ghost predicate Valid()
      reads this, regs, gpio
    {
      && regs.Valid()
      && PIN_PUMP in gpio.outputs && PIN_PUMP !in gpio.inputs && PIN_BUTTON in gpio.inputs
    }

    /** The controller's state as the machine sees it; the pin drives the pump when it is low. */
    ghost function Model(): Pump
      requires Valid()
      reads this, regs, regs.bools, gpio
    {
      Pump(regs.BoolView()[GetIndex(PUMP)], !gpio.Level(PIN_PUMP), latch, lastClick)
    }

    /** Everything but the pump bit of the booleans. */
    ghost function OtherBools(): seq<bool>
      requires Valid()
      reads this, regs, regs.bools, gpio
    {
      regs.BoolView()[1..]
    }

    /** The pins are set up as the firmware does before anything runs. */
    constructor (regs: RegisterFile)
      requires regs.Valid()
      modifies regs`changeFlag, regs.bools
      ensures Valid() && fresh(gpio) && this.regs == regs
      ensures Model() == Pump(false, false, false, 0) && gpio.Level(PIN_PUMP)
    {
      this.regs := regs;
      gpio := new Gpio();
      lastClick, latch := 0, false;
      new;
      gpio.ConfigPinOutput(PIN_PUMP);
      regs.WriteBool(false, PUMP);
      gpio.SetPin(PIN_PUMP);
      gpio.ConfigPinInput(PIN_BUTTON);
    }

    method PumpOn()
      requires Valid()
      modifies regs`changeFlag, regs.bools, gpio`levels
      ensures Valid() && Model() == TurnOn(old(Model())) && OtherBools() == old(OtherBools())
      ensures !gpio.Level(PIN_PUMP)
      ensures gpio.Level(PIN_BUTTON) == old(gpio.Level(PIN_BUTTON))
    {
      regs.WriteBool(true, PUMP);
      gpio.ClearPin(PIN_PUMP);
    }

    method PumpOff()
      requires Valid()
      modifies regs`changeFlag, regs.bools, gpio`levels
      ensures Valid() && Model() == TurnOff(old(Model())) && OtherBools() == old(OtherBools())
      ensures gpio.Level(PIN_PUMP)
      ensures gpio.Level(PIN_BUTTON) == old(gpio.Level(PIN_BUTTON))
    {
      regs.WriteBool(false, PUMP);
      gpio.SetPin(PIN_PUMP);
    }

    method ButtonInterrupt(now: nat)
      requires Valid()
      modifies this`lastClick, this`latch, regs`changeFlag, regs.bools, gpio`levels
      ensures Valid() && Model() == Pressed(old(Model()), now, old(gpio.ReadPin(PIN_BUTTON)))
      ensures OtherBools() == old(OtherBools())
    {
      if lastClick + DEBOUNCE > now {
        return;
      }
      if gpio.ReadPin(PIN_BUTTON) {
        return;
      }
      lastClick := now;
      latch := !latch;
      if latch {
        PumpOn();
      } else {
        PumpOff();
      }
    }

    /** Reference and hysteresis are added and subtracted in 32 bits. */
    predicate SumsFit()
      requires regs.Valid()
      reads this, regs, regs.ints
    {
      var first := regs.ReadInt(TEMP_REF_RECIRCULATION) == 0;
      var ref := if first then regs.ReadInt(S1_TEMP_REF) else regs.ReadInt(S2_TEMP_REF);
      var h := if first then regs.ReadInt(S1_TEMP_HYSTERESIS) else regs.ReadInt(S2_TEMP_HYSTERESIS);
      -0x8000_0000 <= ref - h < 0x8000_0000 && -0x8000_0000 <= ref + h < 0x8000_0000
    }

    method CurrentSchedule() returns (s: seq<bv32>)
      requires regs.Valid()
      ensures s == Schedule(regs.ints[..])
    {
      s := Schedule(regs.ints[..]);
    }

    /** The button's hold is dropped once its time is over. */
    method DropHold(now: nat)
      requires Valid() && now >= lastClick
      modifies this`latch, regs`changeFlag, regs.bools, gpio`levels
      ensures Valid() && Model() == Expired(old(Model()), InputsOf(regs.ints[..], now))
      ensures OtherBools() == old(OtherBools())
    {
      hide Bools, Scheduling.Scheduled, Schedule;
      if latch {
        var dt := now - lastClick;
        if dt > Unsigned64(regs.ReadInt(TIME_RECIRCULATION)) {
          PumpOff();
          latch := false;
        }
      }
    }

    method IsScheduled() returns (active: bool)
      requires Valid()
      ensures active == Scheduling.Scheduled(Schedule(regs.ints[..]), Unsigned32(Int(regs.ints[..], TIMESTAMP)))
    {
      hide Scheduling.Scheduled, Schedule;
      var schedule := CurrentSchedule();
      active := Scheduling.SchedulingTest(schedule, Unsigned32(regs.ReadInt(TIMESTAMP)));
    }

    method ControlPump(now: nat)
      requires Valid() && now >= lastClick && SumsFit()
      modifies this`latch, regs`changeFlag, regs.bools, gpio`levels
      ensures Valid() && Model() == Control(old(Model()), InputsOf(regs.ints[..], now))
      ensures OtherBools() == old(OtherBools())
    {
      hide Bools, Scheduling.Scheduled, Schedule, Expired;
      if regs.ReadInt(ERRORS) != 0 {
        PumpOff();
        return;
      }
      // The source drives the pin here when the pump register is set and the pin reads high, but the
      // pin is an output, and those always read low.
      assert !gpio.ReadPin(PIN_PUMP);
      var first := regs.ReadInt(TEMP_REF_RECIRCULATION) == 0;
      var measure := if first then regs.ReadInt(S1_TEMP) else regs.ReadInt(S2_TEMP);
      var refSup := if first then regs.ReadInt(S1_TEMP_REF) else regs.ReadInt(S2_TEMP_REF);
      var refInf := refSup;
      refSup := refSup + if first then regs.ReadInt(S1_TEMP_HYSTERESIS) else regs.ReadInt(S2_TEMP_HYSTERESIS);
      if measure > refSup {
        PumpOff();
        if latch {
          latch := false;
        }
        return;
      }
      DropHold(now);
      refInf := refInf - if first then regs.ReadInt(S1_TEMP_HYSTERESIS) else regs.ReadInt(S2_TEMP_HYSTERESIS);
      var active := IsScheduled();
      if active {
        // The source's other branch here, for a temperature above refSup, has been dealt with already.
        assert measure <= refSup;
        if measure < refInf {
          PumpOn();
          return;
        }
      }
    }

    /** The periodic step: the button's level is shown in its register, and the pump is controlled. */
    method SystemStep(now: nat)
      requires Valid() && now >= lastClick && SumsFit()
      modifies this`latch, regs`changeFlag, regs.bools, gpio`levels
      ensures Valid() && Model() == Control(old(Model()), InputsOf(regs.ints[..], now))
      ensures OtherBools() == old(OtherBools())[GetIndex(BUTTON) - 1 := !old(gpio.ReadPin(PIN_BUTTON))]
    {
      regs.WriteBool(!gpio.ReadPin(PIN_BUTTON), BUTTON);
      ControlPump(now);
    }

    method ProcessErrors()
      requires Valid()
      modifies regs`changeFlag, regs.ints
      ensures Valid()
      ensures regs.ints[..] == old(regs.ints[..])[GetIndex(ERRORS) := ErrorWord(old(regs.ints[..]))]
    {
      hide SensorErrorAt, Or;
      var value := 0;
      value := Or(value, SensorErrorAt(regs.ints[..], S1_TEMP, S1_ERROR_HIGH));
      value := Or(value, SensorErrorAt(regs.ints[..], S2_TEMP, S2_ERROR_HIGH));
      regs.WriteInt(value, ERRORS);
    }
  }

  /** A sensor out of its limits stops the pump at the next control step after its error is processed. */
  lemma FaultStopsPump(p: Pump, ints: seq<int32>, now: nat)
    requires |ints| == INT_COUNT
    requires !(HealthyAt(ints, S1_TEMP, S1_ERROR_HIGH) && HealthyAt(ints, S2_TEMP, S2_ERROR_HIGH))
    ensures var q := Control(p, InputsOf(ints[GetIndex(ERRORS) := ErrorWord(ints)], now));
            !q.on && !q.driven
  {
    ClearIffHealthy(ints);
    hide HealthyAt, ErrorWord;
  }
}
