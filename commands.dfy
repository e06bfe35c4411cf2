/** The AHT20 wire vocabulary: one opcode byte per command (src/commands.rs). */
module Commands {
  import opened Bytes
  import opened Results

  const READ_STATUS: byte := 0x71
  const INIT_SENSOR: byte := 0xBE
  const CALIBRATE: byte := 0xE1
  const TRIG_MESSURE: byte := 0xAC
  const SOFT_RESET: byte := 0xBA

  /** The fieldless `#[repr(u8)]` command enum. */
  datatype Command = ReadStatus | InitSensor | Calibrate | TrigMessure | SoftReset

  /** The `as u8` cast: each variant's discriminant is the constant of the same name. */
  function AsByte(c: Command): byte
  {
    match c
    case ReadStatus => READ_STATUS
    case InitSensor => INIT_SENSOR
    case Calibrate => CALIBRATE
    case TrigMessure => TRIG_MESSURE
    case SoftReset => SOFT_RESET
  }

  /** Which command, if any, an opcode byte on the wire stands for. */
  function FromByte(b: byte): (r: Option<Command>)
    ensures r.Some? ==> AsByte(r.value) == b
    ensures r.None? ==> forall c: Command :: AsByte(c) != b
  {
    if b == READ_STATUS then Some(ReadStatus)
    else if b == INIT_SENSOR then Some(InitSensor)
    else if b == CALIBRATE then Some(Calibrate)
    else if b == TRIG_MESSURE then Some(TrigMessure)
    else if b == SOFT_RESET then Some(SoftReset)
    else None
  }

  /** The opcodes are the datasheet's values. */
  lemma OpcodeValues()
    ensures AsByte(ReadStatus) == 0x71 && AsByte(InitSensor) == 0xBE && AsByte(Calibrate) == 0xE1
    ensures AsByte(TrigMessure) == 0xAC && AsByte(SoftReset) == 0xBA
  {
  }

  /** The cast is lossless: distinct commands have distinct opcodes. */
  lemma AsByteInjective(c: Command, d: Command)
    ensures AsByte(c) == AsByte(d) ==> c == d
  {
  }

  /** The first byte of a logged write identifies the command that was sent. */
  lemma FromByteAsByte(c: Command)
    ensures FromByte(AsByte(c)) == Some(c)
  {
  }
}
