/**
 * The status byte (src/sensor_status.rs): bit 7 busy, bits 6-5 mode
 * (00 normal, 01 cyclic, 1x command), bit 3 calibration enabled.
 */
module Status {
  import opened Bytes

  const BUSY_VALUE: byte := 128
  const NORMODE_VALUE: byte := 0
  const CYCMODE_VALUE: byte := 32
  const CMDMODE_VALUE: byte := 64
  const CALENABLED_VAL: byte := 8

  const BUSY_BM: byte := 1 << 7
  const NORMODE_BM: byte := (1 << 6) | (1 << 5)
  const CYCMODE_BM: byte := (1 << 6) | (1 << 5)
  const CMDMODE_BM: byte := 1 << 6
  const CALENABLED_BM: byte := 1 << 3

  /** An immutable wrapper around one raw status byte. */
  datatype SensorStatus = SensorStatus(status: byte)

  function New(status: byte): (s: SensorStatus)
    ensures s.status == status
  {
    SensorStatus(status)
  }

  function IsBusy(s: SensorStatus): (r: bool)
    ensures r <==> Bit(s.status, 7)
  {
    (s.status & BUSY_BM) == BUSY_VALUE
  }

  function IsCalibrationEnabled(s: SensorStatus): (r: bool)
    ensures r <==> Bit(s.status, 3)
  {
    (s.status & CALENABLED_BM) == CALENABLED_VAL
  }

  function IsNormalMode(s: SensorStatus): (r: bool)
    ensures r <==> !Bit(s.status, 6) && !Bit(s.status, 5)
  {
    (s.status & NORMODE_BM) == NORMODE_VALUE
  }

  function IsCycMode(s: SensorStatus): (r: bool)
    ensures r <==> !Bit(s.status, 6) && Bit(s.status, 5)
  {
    (s.status & CYCMODE_BM) == CYCMODE_VALUE
  }

  /** "1x: CMD mode": bit 6 alone decides, whatever bit 5 is. */
  function IsCmdMode(s: SensorStatus): (r: bool)
    ensures r <==> Bit(s.status, 6)
  {
    (s.status & CMDMODE_BM) == CMDMODE_VALUE
  }

  /** Every status byte is in exactly one of the three modes. */
  lemma ExactlyOneMode(s: SensorStatus)
    ensures IsNormalMode(s) || IsCycMode(s) || IsCmdMode(s)
    ensures !(IsNormalMode(s) && IsCycMode(s))
    ensures !(IsNormalMode(s) && IsCmdMode(s))
    ensures !(IsCycMode(s) && IsCmdMode(s))
  {
  }

  /** The cyclic-mode mask is the normal-mode mask; only the compared value differs. */
  lemma CycMaskIsNormalMask()
    ensures CYCMODE_BM == NORMODE_BM == 0x60
  {
  }

  /** Busy depends on bit 7 only. */
  lemma BusyOnlyBit7(a: byte, b: byte)
    requires Bit(a, 7) == Bit(b, 7)
    ensures IsBusy(SensorStatus(a)) == IsBusy(SensorStatus(b))
  {
  }

  /** Calibration-enabled depends on bit 3 only; setting the busy bit leaves it as it was. */
  lemma CalibrationOnlyBit3(a: byte, b: byte)
    requires Bit(a, 3) == Bit(b, 3)
    ensures IsCalibrationEnabled(SensorStatus(a)) == IsCalibrationEnabled(SensorStatus(b))
    ensures IsCalibrationEnabled(SensorStatus(a | BUSY_BM)) == IsCalibrationEnabled(SensorStatus(a))
    ensures IsBusy(SensorStatus(a | CALENABLED_BM)) == IsBusy(SensorStatus(a))
  {
  }

  /** The bytes the sensor usually reports, as the unit tests decode them. */
  lemma KnownStatusBytes()
    ensures var s := New(0x18); s.status == 0x18 && !IsBusy(s) && IsNormalMode(s) && !IsCycMode(s) && !IsCmdMode(s)
    ensures IsCalibrationEnabled(New(0x18))
    ensures IsCycMode(New(0x38)) && !IsNormalMode(New(0x38))
    ensures IsCmdMode(New(0x58)) && !IsNormalMode(New(0x58))
    ensures IsCalibrationEnabled(New(0x08)) && !IsBusy(New(0x08))
    ensures IsBusy(New(0x80)) && !IsCalibrationEnabled(New(0x80))
  {
  }
}
