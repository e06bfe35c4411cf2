/**
 * The I2C transport and the delay provider the driver is handed. They are
 * modelled as one scripted bus: it logs every write, read and delay in
 * order, answers reads from a queue of scripted responses, and fails the
 * transactions whose numbers are listed in `faults`, as well as the reads
 * it has no answer of the requested length for. The numbers of all the
 * transactions that failed, for either reason, are recorded in `failed`.
 */
module I2cBus {
  import opened Bytes
  import opened Results

  datatype Event = Write(addr: byte, bytes: seq<byte>) | Read(addr: byte, len: nat) | Delay(ms: nat)

  predicate IsTransaction(e: Event)
  {
    !e.Delay?
  }

  /** The number of bus transactions (writes and reads) in a log. */
  function Transactions(log: seq<Event>): nat
  {
    if log == [] then 0 else (if IsTransaction(log[0]) then 1 else 0) + Transactions(log[1..])
  }

  /** The number of writes in a log whose first byte is `opcode`. */
  function CountWrites(log: seq<Event>, opcode: byte): nat
  {
    if log == [] then 0 else
      var here := log[0].Write? && |log[0].bytes| > 0 && log[0].bytes[0] == opcode;
      (if here then 1 else 0) + CountWrites(log[1..], opcode)
  }

  /** The transport's error: transaction number `at` was not acknowledged. */
  datatype BusError = Nack(at: nat)

  /**
   * What the bus has done (`log`), what it will still answer (`responses`),
   * which transaction numbers are refused (`faults`), how many transactions
   * have been performed (`count`) and which of them failed (`failed`).
   */
  datatype BusState = BusState(log: seq<Event>, responses: seq<seq<byte>>, faults: set<nat>, count: nat, failed: set<nat>)

  /** A bus state after an operation, with the operation's result. */
  datatype Step<+T, +E> = Step(bus: BusState, result: Result<T, E>)

  function BusWrite(b: BusState, addr: byte, bytes: seq<byte>): Step<(), BusError>
  {
    var logged := b.(log := b.log + [Write(addr, bytes)], count := b.count + 1);
    if b.count in b.faults then Step(logged.(failed := b.failed + {b.count}), Err(Nack(b.count)))
    else Step(logged, Ok(()))
  }

  /** A read succeeds when it is not faulted and the next response has the requested length. */
  function BusRead(b: BusState, addr: byte, len: nat): (s: Step<seq<byte>, BusError>)
    ensures s.result.Ok? ==> |s.result.value| == len
  {
    var logged := b.(log := b.log + [Read(addr, len)], count := b.count + 1);
    if b.count in b.faults || b.responses == [] || |b.responses[0]| != len then
      Step(logged.(failed := b.failed + {b.count}), Err(Nack(b.count)))
    else
      Step(logged.(responses := b.responses[1..]), Ok(b.responses[0]))
  }

  function BusDelay(b: BusState, ms: nat): BusState
  {
    b.(log := b.log + [Delay(ms)])
  }

  class Bus {
    var log: seq<Event>
    var responses: seq<seq<byte>>
    const faults: set<nat>
    var count: nat
    /** Bookkeeping for the proofs: the transactions that failed. */
    ghost var failed: set<nat>

    ghost function State(): BusState
      reads this
    {
      BusState(log, responses, faults, count, failed)
    }

    constructor (responses: seq<seq<byte>>, faults: set<nat>)
      ensures State() == BusState([], responses, faults, 0, {})
    {
      this.log := [];
      this.responses := responses;
      this.faults := faults;
      this.count := 0;
      this.failed := {};
    }

    method Write(addr: byte, bytes: seq<byte>) returns (r: Result<(), BusError>)
      modifies this
      ensures Step(State(), r) == BusWrite(old(State()), addr, bytes)
    {
      log := log + [Event.Write(addr, bytes)];
      if count in faults {
        r := Err(Nack(count));
        failed := failed + {count};
      } else {
        r := Ok(());
      }
      count := count + 1;
    }

    /** Fills `buf` from the next response; on failure `buf` is left as it was. */
    method Read(addr: byte, buf: array<byte>) returns (r: Result<(), BusError>)
      modifies this, buf
      ensures var s := BusRead(old(State()), addr, buf.Length);
        && State() == s.bus
        && (r.Ok? <==> s.result.Ok?)
        && (r.Ok? ==> buf[..] == s.result.value)
        && (r.Err? ==> r.error == s.result.error && buf[..] == old(buf[..]))
    {
      log := log + [Event.Read(addr, buf.Length)];
      if count in faults || responses == [] || |responses[0]| != buf.Length {
        r := Err(Nack(count));
        failed := failed + {count};
      } else {
        var data := responses[0];
        forall i | 0 <= i < buf.Length {
          buf[i] := data[i];
        }
        responses := responses[1..];
        r := Ok(());
      }
      count := count + 1;
    }

    method DelayMs(ms: nat)
      modifies this
      ensures State() == BusDelay(old(State()), ms)
    {
      log := log + [Event.Delay(ms)];
    }
  }
}
