# AHT20 driver — a Dafny model

This project models the core of a blocking Rust driver for the AHT20 humidity
and temperature sensor. It covers four parts:

- **The wire vocabulary** (`Commands`, from `src/commands.rs`): the five opcode
  bytes and the `#[repr(u8)]` `Command` enum.
- **The status decoder** (`Status`, from `src/sensor_status.rs`): bit masks over
  the one status byte. Bit 7 is busy, bits 6-5 are the mode and bit 3 is
  calibration enabled.
- **The sample buffer** (`Data`, from `src/data.rs`): a class over a 6-byte
  array. `ClearBytes` zeroes it in place; `Crc8` and `IsCrcGood` are stubs.
- **The driver** (`Driver`, from `src/lib.rs`), with two lifecycle states:
  - `Sensor` is the uninitialised handle. It has `Init`, `Calibrate` and
    `ReadStatus`.
  - `InitializedSensor` holds a reference to the `Sensor` it came from. It has
    `GetStatus`, `TriggerMeasurement`, `ReadSensor` (trigger, then busy-poll
    up to `MAX_ATTEMPTS` = 3 times) and `SoftReset`.

The I2C transport and the `DelayMs` provider are handed to the driver from
outside. Here both become one scripted bus, `I2cBus.Bus`:

- It records every `Write(addr, bytes)`, `Read(addr, len)` and `Delay(ms)`,
  in order, in a `log`.
- It answers reads from a queue of scripted `responses`.
- It refuses the transactions whose sequence numbers are in `faults`, with
  `Nack(at)`. A read also fails with `Nack(at)` when no answer of the
  requested length is queued.
- It records the number of every transaction that failed, for either
  reason, in `failed`. This record exists only for the proofs.

Each driver method is proved to act on the bus exactly as a pure function
does on the bus state (`ReadStatusSpec`, `CalibrateSpec`, `InitSpec`,
`TriggerSpec`, `ReadSensorSpec`, `SoftResetSpec`). The module `Protocol`
then proves what the driver promises about those functions:

- which opcodes are written, and in what order;
- the delays between them;
- how many reads happen;
- which result or error comes back;
- that a failed transaction, refused or left without an answer, ends the operation at once with the error naming it, and that every transport error reported names the operation's last transaction, which failed.

Several results are stated as "clean-bus" equations. They give the whole
final bus state and result when no transaction is faulted and the expected
answers are queued.

The measurement frame follows `src/data.rs:9`, which declares 6 bytes. The
unit test of `read_sensor` (`src/lib.rs:445-460`) and the comment in `crc8`
(`src/data.rs:19-20`) speak of a 7-byte frame whose last byte is a CRC.
This model follows the code. The length shows in the logged
`Read(addr, 6)` events and in the 6-byte frame returned. It does not change
which frame is returned or which error comes back, because the polling
logic tests only byte 0.

## Model

| member | source | states |
|---|---|---|
| Commands.FromByte | src/commands.rs:4-18 | a byte decodes to a command exactly when it is that command's opcode; otherwise no command has it as opcode |
| Commands.AsByte | src/commands.rs:10-18 | definition without a contract of its own: the `as u8` discriminant of each variant; OpcodeValues, AsByteInjective and FromByteAsByte state its properties |
| Commands.OpcodeValues | src/commands.rs:4-8 | the opcodes are READ_STATUS 0x71, INIT_SENSOR 0xBE, CALIBRATE 0xE1, TRIG_MESSURE 0xAC, SOFT_RESET 0xBA |
| Commands.AsByteInjective | src/commands.rs:10-18 | the `as u8` cast is lossless: distinct commands have distinct opcodes |
| Commands.FromByteAsByte | src/commands.rs:10-18 | the first byte of a logged write identifies the command that was sent |
| Status.New | src/sensor_status.rs:33-35 | the status holds exactly the byte it was made from |
| Status.IsBusy | src/sensor_status.rs:37-39 | busy iff bit 7 is set |
| Status.IsCalibrationEnabled | src/sensor_status.rs:41-43 | calibration enabled iff bit 3 is set |
| Status.IsNormalMode | src/sensor_status.rs:45-47 | normal mode iff bits 6 and 5 are both clear |
| Status.IsCycMode | src/sensor_status.rs:49-51 | cyclic mode iff bit 6 is clear and bit 5 is set |
| Status.IsCmdMode | src/sensor_status.rs:53-55 | command mode iff bit 6 is set, whatever bit 5 is ("1x") |
| Status.ExactlyOneMode | src/sensor_status.rs:4-8 | every status byte is in exactly one of the three modes |
| Status.CycMaskIsNormalMask | src/sensor_status.rs:18-19 | the cyclic and normal masks are the same 0x60 |
| Status.BusyOnlyBit7 | src/sensor_status.rs:71-83 | two bytes that agree on bit 7 agree on busy, whatever their other bits |
| Status.CalibrationOnlyBit3 | src/sensor_status.rs:86-99 | calibration-enabled depends on bit 3 alone; setting the busy bit does not change it, and setting bit 3 does not change busy |
| Status.KnownStatusBytes | src/sensor_status.rs:62-128 | the unit tests' vectors: 0x18 is idle, normal and calibrated; 0x38 is cyclic; 0x58 is command mode; 0x80 is busy and not calibrated |
| Data.Zeroed | src/data.rs:25-29 | the zeroed buffer has the same length and every byte 0 |
| Data.ZeroedIdempotent | src/data.rs:25-29 | clearing twice gives the same contents as clearing once |
| Data.SensorData.constructor | src/lib.rs:175 | a new buffer has 6 zero bytes and crc 0 |
| Data.SensorData.ClearBytes | src/data.rs:25-29 | the array becomes the zeroed old contents in place; its length and `crc` are unchanged |
| Data.SensorData.Crc8 | src/data.rs:18-23 | the checksum stub is 0x00 for every buffer |
| Data.SensorData.IsCrcGood | src/data.rs:14-16 | the stub changes neither the bytes nor `crc` |
| I2cBus.BusRead | src/lib.rs:123-125 | a successful read returns exactly the requested number of bytes |
| I2cBus.Bus.Write | src/lib.rs:84 | the bus logs the write, counts it, and fails it exactly when its number is faulted, recording the failure |
| I2cBus.Bus.Read | src/lib.rs:180-181 | the bus logs the read; on success the buffer is overwritten with the next response; on failure, when the read is faulted or has no answer of the buffer's length, the buffer is untouched and the failure is recorded |
| I2cBus.Bus.DelayMs | src/lib.rs:81 | the delay is logged and nothing else changes |
| Driver.ReadStatusSpec | src/lib.rs:114-128 | definition without a contract of its own: write 0x71, read one byte, wrap it; each bus error becomes I2C at once; ReadStatusFollows, ReadStatusProtocol and ReadStatusOnCleanBus state its properties |
| Driver.CalibrateSpec | src/lib.rs:95-111 | definition without a contract of its own: write 0xE1 0x08 0x00, wait 10 ms, read the status, Internal unless bit 3 is set; the Calibrate lemmas state its properties |
| Driver.InitSpec | src/lib.rs:75-92 | definition without a contract of its own: wait 40 ms, write 0xBE, read the status, calibrate when bit 3 is clear; the Init lemmas state its properties |
| Driver.TriggerSpec | src/lib.rs:153-163 | definition without a contract of its own: the single write 0xAC 0x33 0x00; TriggerProtocol states its properties |
| Driver.Poll | src/lib.rs:178-190 | definition without a contract of its own: the busy-poll loop as written from one iteration on, keeping the dead `attempt == MAX_ATTEMPTS` branch; PollBounds and PollOnCleanBus state its properties |
| Driver.ReadSensorSpec | src/lib.rs:166-194 | definition without a contract of its own: trigger, wait 80 ms, poll; ReadSensorProtocol and ReadSensorOnCleanBus state its properties |
| Driver.PollFixed | src/lib.rs:178-190 | definition without a contract of its own: the corrected loop, which reports DeviceTimeOut after a busy last read; PollFixedReady and PollFixedOnCleanBus state its properties |
| Driver.ReadSensorFixedSpec | src/lib.rs:166-194 | definition without a contract of its own: read_sensor with the corrected loop; ReadSensorFixedOnCleanBus states its properties |
| Driver.SoftResetSpec | src/lib.rs:196-211 | definition without a contract of its own: read the status, UnexpectedBusy if bit 7 is set, else AfterIdle; SoftResetProtocol states its properties |
| Driver.AfterIdle | src/lib.rs:205-210 | definition without a contract of its own: write 0xBA, then read the status; AfterIdleFollows and AfterIdleStops state its properties |
| Driver.Sensor.constructor | src/lib.rs:69-72 | the handle keeps the bus and the address it is given |
| Driver.Sensor.Init | src/lib.rs:75-92 | the bus ends as InitSpec says; the result is Ok (with a fresh handle on this sensor) exactly when InitSpec succeeds, and otherwise carries its error |
| Driver.Sensor.Calibrate | src/lib.rs:95-111 | the bus and the result are those of CalibrateSpec |
| Driver.Sensor.ReadStatus | src/lib.rs:114-128 | the bus and the result are those of ReadStatusSpec |
| Driver.InitializedSensor.constructor | src/lib.rs:91 | the initialised handle refers to the sensor it was made from |
| Driver.InitializedSensor.GetStatus | src/lib.rs:148-151 | the bus and the result are those of ReadStatusSpec |
| Driver.InitializedSensor.TriggerMeasurement | src/lib.rs:153-163 | the bus and the result are those of TriggerSpec |
| Driver.InitializedSensor.ReadSensor | src/lib.rs:166-194 | the bus ends as ReadSensorSpec says; on success the fresh buffer holds exactly the frame ReadSensorSpec returns |
| Driver.InitializedSensor.SoftReset | src/lib.rs:196-211 | the bus and the result are those of SoftResetSpec |
| Protocol.FirstReady | src/lib.rs:178-184 | the index of the frame the loop stops at is at most the number of frames read |
| Protocol.FirstReadyIsFirst | src/lib.rs:178-190 | FirstReady is the first frame that is not busy: every frame before it is busy |
| Protocol.ReadStatusFollows | src/lib.rs:114-128 | read_status only appends to the log; a transport error it reports is the last transaction it performed, which failed; and a failed transaction (refused, or a read with no answer) ends it with the error naming that transaction |
| Protocol.ReadStatusProtocol | src/lib.rs:114-128 | read_status logs the 0x71 write, then a one-byte read unless the write failed; it succeeds iff both transactions are acknowledged and a one-byte answer is queued; the status is that byte; it writes no other opcode |
| Protocol.ReadStatusOpcodes | src/lib.rs:116-118 | the only opcode read_status writes is 0x71 |
| Protocol.ReadStatusOnCleanBus | src/lib.rs:369-394 | on a clean bus, the whole resulting bus state and the status read |
| Protocol.CalibrateFollows | src/lib.rs:95-111 | calibrate only appends to the log, and a reported transport error is its last transaction, which failed |
| Protocol.CalibrateStops | src/lib.rs:98-105 | a failed transaction in calibrate (the 0xE1 write, the status write or the status read) is its last one, and calibrate reports `I2C(Nack(n))` for it |
| Protocol.CalibrateProtocol | src/lib.rs:98-105 | calibrate reports a transport error when any of its three transactions is refused or no answer is queued |
| Protocol.CalibrateWrites | src/lib.rs:98-103 | calibrate's first event is the write 0xE1 0x08 0x00, which it sends exactly once; when that is acknowledged a 10 ms delay follows |
| Protocol.CalibrateOnCleanBus | src/lib.rs:277-300 | on a clean bus calibrate logs write, delay 10, status write and read; it returns the status iff its bit 3 is set, and Internal otherwise |
| Protocol.InitProtocol | src/lib.rs:75-92 | init only appends to the log, counts every transaction it logs, and a transport error it reports is its last transaction, with nothing logged after it |
| Protocol.InitFailsFast | src/lib.rs:84-89 | a transport error init reports names its last transaction, which failed |
| Protocol.InitStops | src/lib.rs:84-88 | a failed transaction anywhere in init (the 0xBE write, a status write or read left without an answer, the calibrate write) is its last one, and init reports `I2C(Nack(n))` for it |
| Protocol.InitWrites | src/lib.rs:80-88 | init starts with the 40 ms delay and the 0xBE write, and sends the calibrate command at most once |
| Protocol.InitCalibratesIff | src/lib.rs:86-89 | when the first status read is answered, init calibrates iff that status has bit 3 clear; with bit 3 set it succeeds after four events |
| Protocol.InitWithCalibration | src/lib.rs:329-365 | on a clean bus whose first status has bit 3 clear, init logs the full eight-event sequence and succeeds iff the status after calibration has bit 3 set (a calibrate failure propagates as Internal) |
| Protocol.InitStart | src/lib.rs:81-84 | init's first two events are the 40 ms delay and the 0xBE write |
| Protocol.InitStatus | src/lib.rs:86 | init's status read follows the 0xBE write, fails fast, and on a clean bus returns the queued byte |
| Protocol.InitCalibrates | src/lib.rs:87-89 | the calibrate branch of init sends exactly one calibrate command |
| Protocol.TriggerProtocol | src/lib.rs:153-163 | trigger_measurement logs exactly the write 0xAC 0x33 0x00, reads nothing, and succeeds iff that write is acknowledged; a refusal is reported as the I2C error naming it, and the bus records it as failed |
| Protocol.SoftResetProtocol | src/lib.rs:196-204 | soft_reset only appends to the log and a reported transport error is its last transaction; UnexpectedBusy comes after just the status write and read, with no 0xBA sent; when the first status read is answered, UnexpectedBusy comes back iff that status has bit 7 set |
| Protocol.SoftResetAfterIdle | src/lib.rs:205-210 | after a status that reported not busy, soft_reset only appends to the log, a reported transport error is its last transaction, and it never reports UnexpectedBusy |
| Protocol.AfterIdleFollows | src/lib.rs:205-210 | the 0xBA write and the status read after it only append to the log, a reported transport error is their last transaction, and UnexpectedBusy never comes back |
| Protocol.SoftResetWhenIdle | src/lib.rs:494-521 | on a clean bus whose first status has bit 7 clear, soft_reset logs status write, read, 0xBA write, status write, read, and returns the second status |
| Protocol.SoftResetStops | src/lib.rs:200-209 | a failed transaction anywhere in soft_reset (refused, or a status read with no answer) is its last one, and soft_reset reports `I2C(Nack(n))` for it |
| Protocol.AfterIdleStops | src/lib.rs:206-209 | after an idle status, a failed 0xBA write or status read ends soft_reset with the I2C error naming it |
| Protocol.BusyTest | src/lib.rs:183 | the loop's test `BUSY_BM & byte0 == 0` is "bit 7 clear" |
| Protocol.PollBounds | src/lib.rs:178-190 | for every bus the poll loop never reports DeviceTimeOut, performs between 1 and MAX_ATTEMPTS bus transactions, only appends to the log, and a reported transport error is its last transaction |
| Protocol.PollStops | src/lib.rs:180-181 | the poll loop never retries after a failed read, refused or left without an answer: that read is the last transaction and its I2C error is returned |
| Protocol.PollOnCleanBus | src/lib.rs:178-190 | on a clean bus the loop reads up to the first ready frame, or all frames when every one is busy, with 20 ms after each busy read, and returns the last frame read |
| Protocol.PollBusyStep | src/lib.rs:183-189 | a busy frame with attempts left is followed by 20 ms and the rest of the loop |
| Protocol.PollBusyRead | src/lib.rs:183-189 | on a bus that answers a busy frame, the loop waits 20 ms and goes on with the next attempt from that frame |
| Protocol.PolledShift | src/lib.rs:183-189 | the reference loop after a busy first frame is the reference loop over the remaining frames |
| Protocol.ReadSensorProtocol | src/lib.rs:166-194 | read_sensor starts with the trigger write; a refused trigger ends it; otherwise 80 ms follow and then 1 to 3 further bus transactions; it never reports DeviceTimeOut; a reported transport error is its last transaction |
| Protocol.ReadSensorStops | src/lib.rs:171-190 | any failed transaction of read_sensor, the trigger write or a frame read, is its last and is returned as I2C |
| Protocol.ReadSensorOnCleanBus | src/lib.rs:166-194 | on a clean bus read_sensor is the trigger, 80 ms and the reference poll over the three queued frames |
| Protocol.ReadSensorBusyThenReady | src/lib.rs:436-491 | the unit test's exchange: after a busy frame and a ready one, read_sensor logs read, 20 ms, read and returns the ready frame |
| Protocol.ReadSensorReturnsBusyFrame | src/lib.rs:186-187 | as written, three busy frames make read_sensor return the third, busy, frame as success |
| Protocol.ReadSensorBusyExample | src/lib.rs:186-187 | a concrete bus of three 0x98 frames on which read_sensor returns a busy frame |
| Protocol.PollFixedReady | src/lib.rs:178-190 | with the corrected loop, a successful poll returns 6 bytes that are not busy |
| Protocol.PollFixedOnCleanBus | src/lib.rs:178-190 | on a clean bus the corrected loop reads up to the first ready frame and times out after the last busy one, with no delay after the last read |
| Protocol.PollFixedBusyStep | src/lib.rs:183-189 | the inductive step of the corrected loop on a busy frame |
| Protocol.PolledFixedShift | src/lib.rs:183-189 | the corrected reference loop after a busy first frame is that loop over the remaining frames |
| Protocol.ReadSensorFixedOnCleanBus | src/lib.rs:166-194 | with the corrected loop, read_sensor reports DeviceTimeOut iff all three frames are busy, and otherwise returns the first queued frame that is not busy |

## Left out

- The real I2C transport and `DelayMs` (embedded-hal traits) become the scripted bus. Delays are events in the same log, and no real time passes.
- A bus error is `Nack(n)`, naming the failed transaction. The transport's own error type is not modelled.
- `src/register.rs` is not part of this model. `src/lib.rs` never declares it as a module.
- The CRC-8 checksum and the humidity and temperature bit unpacking and unit conversion. None of them exists in the code beyond the `crc8` stub, and the conversions are floating point.
- The `is_crc_good()` / `sd.crc` / `sd.bytes[6]` assertions of the `read_sensor` unit test (`src/lib.rs:483-487`). They rely on a `SensorData` with a 7-byte frame and a boolean `is_crc_good`, which `src/data.rs` does not have. The failing `assert!(false)` test of `src/data.rs` is left out too.
- Data.SensorData.constructor: `src/data.rs` has no `SensorData::new()`. The constructor is what `src/lib.rs:175` needs: a zeroed 6-byte buffer with crc 0.
- Data.SensorData.IsCrcGood: `is_crc_good` has an empty body in the code. The model states only that it changes nothing.
- `INITAL_CRC_VAL` is declared but never used.
- Rust lifetimes and the exclusivity of the `&mut` borrow that `InitializedSensor` holds. The wrapper holds a plain reference to its `Sensor`.
- The unused `buffer` field of `Sensor`, and the unused `_delay` parameter of `soft_reset`.
- `vec!` versus arrays.
- Delay widths: the `u16` delays and the `usize` attempt counter are unbounded `nat`. All constants are small, so no wrap-around can occur.
- Test scaffolding (`self_test`, `mocking_i2c`, the mock plumbing). Its scripted exchanges appear as the clean-bus lemmas and `ReadSensorBusyThenReady`.
- The corrected polling loop exists only as the functions `PollFixed` and `ReadSensorFixedSpec` with lemmas about them. The `ReadSensor` method models the loop as written.

## Findings

| source | as written | input that shows it | evidently intended | confidence | as-written member | corrected member |
|---|---|---|---|---|---|---|
| src/lib.rs:186-187 | `else if attempt == MAX_ATTEMPTS` inside `for attempt in 0..MAX_ATTEMPTS`, so the test is never true and `DeviceTimeOut` is never returned; after a busy third frame the loop waits 20 ms and returns that frame as `Ok` | a clean bus that answers all three frame reads with `[0x98, 0x7E, 0x51, 0x65, 0xD4, 0xA0]` (bit 7 of byte 0 set) | report `DeviceTimeOut` once the last allowed read still reports busy | not executed | Protocol.ReadSensorReturnsBusyFrame | Protocol.ReadSensorFixedOnCleanBus |
