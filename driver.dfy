/**
 * The AHT20 driver (src/lib.rs): an uninitialised `Sensor` that owns the
 * bus, and an `InitializedSensor` that holds a reference to it and offers
 * the operations that need an initialised device.
 *
 * Each operation is first written as a function from the bus state before
 * it to the bus state after it and its result (`...Spec`); the methods of
 * the two classes are proved to do exactly that to the bus object.
 */
module Driver {
  import opened Bytes
  import opened Results
  import opened Commands
  import opened Status
  import opened Data
  import opened I2cBus

  /** The sensor's bus address, 0x38. */
  const SENSOR_ADDR: byte := 0x38

  const STARTUP_DELAY_MS: nat := 40
  const BUSY_DELAY_MS: nat := 20
  const MEASURE_DELAY_MS: nat := 80
  const CALIBRATE_DELAY_MS: nat := 10

  const MAX_ATTEMPTS: nat := 3

  const TRIG_MEASURE_PARAM0: byte := 0x33
  const TRIG_MEASURE_PARAM1: byte := 0x00

  datatype Error = I2C(cause: BusError) | InvalidChecksum | UnexpectedBusy | Internal | DeviceTimeOut

  function ReadStatusSpec(b: BusState, addr: byte): Step<SensorStatus, Error>
  {
    var w := BusWrite(b, addr, [AsByte(Command.ReadStatus)]);
    if w.result.Err? then Step(w.bus, Err(I2C(w.result.error)))
    else
      var rd := BusRead(w.bus, addr, 1);
      if rd.result.Err? then Step(rd.bus, Err(I2C(rd.result.error)))
      else Step(rd.bus, Ok(SensorStatus(rd.result.value[0])))
  }

  function CalibrateSpec(b: BusState, addr: byte): Step<SensorStatus, Error>
  {
    var w := BusWrite(b, addr, [AsByte(Command.Calibrate), 0x08, 0x00]);
    if w.result.Err? then Step(w.bus, Err(I2C(w.result.error)))
    else
      var st := ReadStatusSpec(BusDelay(w.bus, CALIBRATE_DELAY_MS), addr);
      if st.result.Err? then st
      else if IsCalibrationEnabled(st.result.value) then st
      else Step(st.bus, Err(Internal))
  }

  function InitSpec(b: BusState, addr: byte): Step<(), Error>
  {
    var w := BusWrite(BusDelay(b, STARTUP_DELAY_MS), addr, [AsByte(Command.InitSensor)]);
    if w.result.Err? then Step(w.bus, Err(I2C(w.result.error)))
    else
      var st := ReadStatusSpec(w.bus, addr);
      if st.result.Err? then Step(st.bus, Err(st.result.error))
      else if !IsCalibrationEnabled(st.result.value) then
        var c := CalibrateSpec(st.bus, addr);
        if c.result.Err? then Step(c.bus, Err(c.result.error)) else Step(c.bus, Ok(()))
      else Step(st.bus, Ok(()))
  }

  function TriggerSpec(b: BusState, addr: byte): Step<(), Error>
  {
    var w := BusWrite(b, addr, [AsByte(Command.TrigMessure), TRIG_MEASURE_PARAM0, TRIG_MEASURE_PARAM1]);
    if w.result.Err? then Step(w.bus, Err(I2C(w.result.error))) else Step(w.bus, Ok(()))
  }

  /**
   * The busy-poll loop of read_sensor from iteration `attempt` on, with
   * `frame` the buffer's current contents. The timeout branch is kept as
   * written: inside the loop `attempt < MAX_ATTEMPTS`, so it is dead.
   */
  function Poll(b: BusState, addr: byte, attempt: nat, frame: seq<byte>): Step<seq<byte>, Error>
    decreases MAX_ATTEMPTS - attempt
  {
    if attempt >= MAX_ATTEMPTS then Step(b, Ok(frame))
    else
      var rd := BusRead(b, addr, BYTES_LEN);
      if rd.result.Err? then Step(rd.bus, Err(I2C(rd.result.error)))
      else if BUSY_BM & rd.result.value[0] == 0 then Step(rd.bus, Ok(rd.result.value))
      else if attempt == MAX_ATTEMPTS then Step(rd.bus, Err(DeviceTimeOut))
      else Poll(BusDelay(rd.bus, BUSY_DELAY_MS), addr, attempt + 1, rd.result.value)
  }

  function ReadSensorSpec(b: BusState, addr: byte): Step<seq<byte>, Error>
  {
    var t := TriggerSpec(b, addr);
    if t.result.Err? then Step(t.bus, Err(t.result.error))
    else Poll(BusDelay(t.bus, MEASURE_DELAY_MS), addr, 0, BLANK)
  }

  /**
   * The polling loop as evidently intended: a busy frame on the last
   * attempt reports DeviceTimeOut instead of being returned.
   */
  function PollFixed(b: BusState, addr: byte, attempt: nat): Step<seq<byte>, Error>
    requires attempt < MAX_ATTEMPTS
    decreases MAX_ATTEMPTS - attempt
  {
    var rd := BusRead(b, addr, BYTES_LEN);
    if rd.result.Err? then Step(rd.bus, Err(I2C(rd.result.error)))
    else if BUSY_BM & rd.result.value[0] == 0 then Step(rd.bus, Ok(rd.result.value))
    else if attempt == MAX_ATTEMPTS - 1 then Step(rd.bus, Err(DeviceTimeOut))
    else PollFixed(BusDelay(rd.bus, BUSY_DELAY_MS), addr, attempt + 1)
  }

  /** read_sensor with the corrected polling loop. */
  function ReadSensorFixedSpec(b: BusState, addr: byte): Step<seq<byte>, Error>
  {
    var t := TriggerSpec(b, addr);
    if t.result.Err? then Step(t.bus, Err(t.result.error))
    else PollFixed(BusDelay(t.bus, MEASURE_DELAY_MS), addr, 0)
  }

  function SoftResetSpec(b: BusState, addr: byte): Step<SensorStatus, Error>
  {
    var st := ReadStatusSpec(b, addr);
    if st.result.Err? then st
    else if IsBusy(st.result.value) then Step(st.bus, Err(UnexpectedBusy))
    else AfterIdle(st.bus, addr)
  }

  /** What soft_reset does once a status read has reported not busy: write 0xBA, then read the status again. */
  function AfterIdle(b: BusState, addr: byte): Step<SensorStatus, Error>
  {
    var w := BusWrite(b, addr, [AsByte(Command.SoftReset)]);
    if w.result.Err? then Step(w.bus, Err(I2C(w.result.error)))
    else ReadStatusSpec(w.bus, addr)
  }

  /** The device handle before initialisation. */
  class Sensor {
    const i2c: Bus
    const address: byte

    constructor (i2c: Bus, address: byte)
      ensures this.i2c == i2c && this.address == address
    {
      this.i2c := i2c;
      this.address := address;
    }

    method Init() returns (r: Result<InitializedSensor, Error>)
      modifies i2c
      ensures var s := InitSpec(old(i2c.State()), address);
        && i2c.State() == s.bus
        && (r.Ok? <==> s.result.Ok?)
        && (r.Err? ==> r.error == s.result.error)
      ensures r.Ok? ==> fresh(r.value) && r.value.sensor == this
    {
      i2c.DelayMs(STARTUP_DELAY_MS);
      var w := i2c.Write(address, [AsByte(Command.InitSensor)]);
      if w.Err? {
        return Err(I2C(w.error));
      }
      var status := ReadStatus();
      if status.Err? {
        return Err(status.error);
      }
      if !IsCalibrationEnabled(status.value) {
        var c := Calibrate();
        if c.Err? {
          return Err(c.error);
        }
      }
      var initialized := new InitializedSensor(this);
      return Ok(initialized);
    }

    method Calibrate() returns (r: Result<SensorStatus, Error>)
      modifies i2c
      ensures Step(i2c.State(), r) == CalibrateSpec(old(i2c.State()), address)
    {
      var w := i2c.Write(address, [AsByte(Command.Calibrate), 0x08, 0x00]);
      if w.Err? {
        return Err(I2C(w.error));
      }
      i2c.DelayMs(CALIBRATE_DELAY_MS);
      var status := ReadStatus();
      if status.Err? {
        return status;
      }
      if IsCalibrationEnabled(status.value) {
        return status;
      }
      return Err(Internal);
    }

    method ReadStatus() returns (r: Result<SensorStatus, Error>)
      modifies i2c
      ensures Step(i2c.State(), r) == ReadStatusSpec(old(i2c.State()), address)
    {
      var w := i2c.Write(address, [AsByte(Command.ReadStatus)]);
      if w.Err? {
        return Err(I2C(w.error));
      }
      var buf := new byte[1](_ => 0);
      var rd := i2c.Read(address, buf);
      if rd.Err? {
        return Err(I2C(rd.error));
      }
      return Ok(SensorStatus(buf[0]));
    }
  }

  /** The device handle after initialisation; it refers to the `Sensor` it came from. */
  class InitializedSensor {
    const sensor: Sensor

    constructor (sensor: Sensor)
      ensures this.sensor == sensor
    {
      this.sensor := sensor;
    }

    method GetStatus() returns (r: Result<SensorStatus, Error>)
      modifies sensor.i2c
      ensures Step(sensor.i2c.State(), r) == ReadStatusSpec(old(sensor.i2c.State()), sensor.address)
    {
      r := sensor.ReadStatus();
    }

    method TriggerMeasurement() returns (r: Result<(), Error>)
      modifies sensor.i2c
      ensures Step(sensor.i2c.State(), r) == TriggerSpec(old(sensor.i2c.State()), sensor.address)
    {
      var w := sensor.i2c.Write(sensor.address, [AsByte(Command.TrigMessure), TRIG_MEASURE_PARAM0, TRIG_MEASURE_PARAM1]);
      if w.Err? {
        return Err(I2C(w.error));
      }
      return Ok(());
    }

    method ReadSensor() returns (r: Result<SensorData, Error>)
      modifies sensor.i2c
      ensures var s := ReadSensorSpec(old(sensor.i2c.State()), sensor.address);
        && sensor.i2c.State() == s.bus
        && (r.Ok? <==> s.result.Ok?)
        && (r.Err? ==> r.error == s.result.error)
        && (r.Ok? ==> fresh(r.value) && fresh(r.value.bytes) && r.value.Valid()
                      && r.value.bytes[..] == s.result.value && r.value.crc == 0)
    {
      var t := TriggerMeasurement();
      if t.Err? {
        return Err(t.error);
      }
      sensor.i2c.DelayMs(MEASURE_DELAY_MS);
      var sd := new SensorData();
      ghost var total := Poll(sensor.i2c.State(), sensor.address, 0, sd.bytes[..]);
      for attempt := 0 to MAX_ATTEMPTS
        invariant fresh(sd) && fresh(sd.bytes) && sd.Valid() && sd.crc == 0
        invariant Poll(sensor.i2c.State(), sensor.address, attempt, sd.bytes[..]) == total
      {
        var rd := sensor.i2c.Read(sensor.address, sd.bytes);
        if rd.Err? {
          return Err(I2C(rd.error));
        }
        if BUSY_BM & sd.bytes[0] == 0 {
          break;
        } else if attempt == MAX_ATTEMPTS {
          return Err(DeviceTimeOut);
        }
        sensor.i2c.DelayMs(BUSY_DELAY_MS);
      }
      return Ok(sd);
    }

    method SoftReset() returns (r: Result<SensorStatus, Error>)
      modifies sensor.i2c
      ensures Step(sensor.i2c.State(), r) == SoftResetSpec(old(sensor.i2c.State()), sensor.address)
    {
      var status := GetStatus();
      if status.Err? {
        return Err(status.error);
      }
      if IsBusy(status.value) {
        return Err(UnexpectedBusy);
      }
      var w := sensor.i2c.Write(sensor.address, [AsByte(Command.SoftReset)]);
      if w.Err? {
        return Err(I2C(w.error));
      }
      status := GetStatus();
      if status.Err? {
        return Err(status.error);
      }
      return Ok(status.value);
    }
  }
}
