/**
 * What the driver promises about the bus: the exact sequence of writes,
 * reads and delays each operation performs, the result it returns, and
 * that a transport error ends the operation at once.
 */
module Protocol {
  import opened Bytes
  import opened Results
  import opened Status
  import opened Data
  import opened I2cBus
  import opened Driver

  /** `s` comes after `b`: the log only grew, and `count` grew by the transactions logged. */
  predicate Follows(b: BusState, s: BusState)
  {
    && |b.log| <= |s.log|
    && s.log[..|b.log|] == b.log
    && s.faults == b.faults
    && s.count == b.count + Transactions(s.log[|b.log|..])
  }

  /** The events an operation added to the log. */
  function Added(b: BusState, s: BusState): seq<Event>
    requires |b.log| <= |s.log|
  {
    s.log[|b.log|..]
  }

  /**
   * A transport error names the last transaction performed, which failed,
   * and the log ends with that transaction: nothing, not even a delay,
   * followed it.
   */
  predicate FailsFast<T>(s: Step<T, Error>)
  {
    s.result.Err? && s.result.error.I2C? ==>
      && s.result.error.cause.at + 1 == s.bus.count
      && s.result.error.cause.at in s.bus.failed
      && |s.bus.log| > 0
      && IsTransaction(s.bus.log[|s.bus.log| - 1])
  }

  /**
   * The converse: a failed transaction ends the operation. If any
   * transaction performed from `b` on failed (refused, or a read with no
   * answer), it was the last one, and the operation reports the transport
   * error that names it.
   */
  predicate StopsAtFailure<T>(b: BusState, s: Step<T, Error>)
  {
    && b.failed <= s.bus.failed
    && forall i :: i in s.bus.failed && i !in b.failed ==>
         i + 1 == s.bus.count && s.result == Err(I2C(Nack(i)))
  }

  /** A step that succeeded, followed by one that stops at a failure, stops at a failure. */
  lemma StopsThen<T, U>(b: BusState, m: Step<T, Error>, s: Step<U, Error>)
    requires m.result.Ok? && StopsAtFailure(b, m)
    requires StopsAtFailure(m.bus, s)
    ensures StopsAtFailure(b, s)
  {
    assert m.bus.failed == b.failed;
  }

  /** None of the next `n` transactions is faulted. */
  predicate Clean(b: BusState, n: nat)
  {
    forall i :: b.count <= i < b.count + n ==> i !in b.faults
  }

  /** The next `m` scripted responses are there and each is `len` bytes long. */
  predicate Queued(b: BusState, m: nat, len: nat)
  {
    m <= |b.responses| && forall i :: 0 <= i < m ==> |b.responses[i]| == len
  }

  /** A frame whose status byte reports busy. */
  predicate FrameBusy(f: seq<byte>)
  {
    |f| > 0 && Bit(f[0], 7)
  }

  /** The index of the first frame that is not busy, or `|frames|` when all are. */
  function FirstReady(frames: seq<seq<byte>>): (k: nat)
    ensures k <= |frames|
  {
    if frames == [] || !FrameBusy(frames[0]) then 0 else 1 + FirstReady(frames[1..])
  }

  /** FirstReady is the first ready frame: every frame before it is busy, and it is not. */
  lemma {:induction false} FirstReadyIsFirst(frames: seq<seq<byte>>)
    ensures var k := FirstReady(frames);
      && (forall j :: 0 <= j < k ==> FrameBusy(frames[j]))
      && (k < |frames| ==> !FrameBusy(frames[k]))
  {
    if frames != [] && FrameBusy(frames[0]) {
      FirstReadyIsFirst(frames[1..]);
      var k := FirstReady(frames);
      forall j | 0 <= j < k
        ensures FrameBusy(frames[j])
      {
        if j > 0 {
          assert frames[j] == frames[1..][j - 1];
        }
      }
      if k < |frames| {
        assert frames[k] == frames[1..][k - 1];
      }
    }
  }

  /**
   * The log of `n` frame reads with a 20 ms delay after each but the last;
   * the last read is followed by one exactly when `busyLast` (the
   * as-written loop delays after a busy last frame too).
   */
  function PollTrace(addr: byte, n: nat, busyLast: bool): seq<Event>
    requires n >= 1
  {
    if n == 1 then [Read(addr, BYTES_LEN)] + (if busyLast then [Delay(BUSY_DELAY_MS)] else [])
    else [Read(addr, BYTES_LEN), Delay(BUSY_DELAY_MS)] + PollTrace(addr, n - 1, busyLast)
  }

  // ---------------------------------------------------------------- logs

  lemma {:induction false} TransactionsAppend(x: seq<Event>, y: seq<Event>)
    ensures Transactions(x + y) == Transactions(x) + Transactions(y)
  {
    if x == [] {
      assert x + y == y;
    } else {
      assert (x + y)[1..] == x[1..] + y;
      TransactionsAppend(x[1..], y);
    }
  }

  lemma {:induction false} CountWritesAppend(x: seq<Event>, y: seq<Event>, opcode: byte)
    ensures CountWrites(x + y, opcode) == CountWrites(x, opcode) + CountWrites(y, opcode)
  {
    if x == [] {
      assert x + y == y;
    } else {
      assert (x + y)[1..] == x[1..] + y;
      CountWritesAppend(x[1..], y, opcode);
    }
  }

  /** Counting the writes of one event. */
  lemma CountWritesOne(e: Event, opcode: byte)
    ensures CountWrites([e], opcode) == (if e.Write? && |e.bytes| > 0 && e.bytes[0] == opcode then 1 else 0)
  {
    assert [e][1..] == [];
  }

  /** Following is transitive, and the events added compose. */
  lemma FollowsTrans(a: BusState, b: BusState, c: BusState)
    requires Follows(a, b) && Follows(b, c)
    ensures Follows(a, c) && Added(a, c) == Added(a, b) + Added(b, c)
  {
    assert c.log == a.log + Added(a, b) + Added(b, c);
    assert c.log[|a.log|..] == Added(a, b) + Added(b, c);
    TransactionsAppend(Added(a, b), Added(b, c));
  }

  lemma WriteStep(b: BusState, addr: byte, bytes: seq<byte>)
    ensures var s := BusWrite(b, addr, bytes);
      Follows(b, s.bus) && Added(b, s.bus) == [Write(addr, bytes)]
  {
    var s := BusWrite(b, addr, bytes);
    assert s.bus.log[|b.log|..] == [Write(addr, bytes)];
  }

  lemma ReadStep(b: BusState, addr: byte, len: nat)
    ensures var s := BusRead(b, addr, len);
      Follows(b, s.bus) && Added(b, s.bus) == [Read(addr, len)]
  {
    var s := BusRead(b, addr, len);
    assert s.bus.log[|b.log|..] == [Read(addr, len)];
  }

  lemma DelayStep(b: BusState, ms: nat)
    ensures Follows(b, BusDelay(b, ms)) && Added(b, BusDelay(b, ms)) == [Delay(ms)]
  {
    assert BusDelay(b, ms).log[|b.log|..] == [Delay(ms)];
  }

  // ---------------------------------------------------------- read_status

  /** read_status follows the bus state it starts from and fails fast. */
  lemma ReadStatusFollows(b: BusState, addr: byte)
    ensures var s := ReadStatusSpec(b, addr);
      Follows(b, s.bus) && FailsFast(s)
    ensures StopsAtFailure(b, ReadStatusSpec(b, addr))
  {
    var w := BusWrite(b, addr, [0x71]);
    WriteStep(b, addr, [0x71]);
    if w.result.Ok? {
      ReadStep(w.bus, addr, 1);
      FollowsTrans(b, w.bus, BusRead(w.bus, addr, 1).bus);
    }
  }

  /**
   * read_status writes the opcode 0x71, then reads one byte; the status it
   * returns holds exactly that byte.
   */
  lemma ReadStatusProtocol(b: BusState, addr: byte)
    ensures var s := ReadStatusSpec(b, addr); Follows(b, s.bus)
    ensures var s := ReadStatusSpec(b, addr);
      && Added(b, s.bus) == (if b.count in b.faults then [Write(addr, [0x71])] else [Write(addr, [0x71]), Read(addr, 1)])
      && (s.result.Ok? <==> Clean(b, 2) && Queued(b, 1, 1))
      && (s.result.Ok? ==> s.result.value.status == b.responses[0][0] && s.bus.responses == b.responses[1..])
      && (s.result.Err? ==> s.result.error.I2C? && s.bus.responses == b.responses)
    ensures var s := ReadStatusSpec(b, addr);
      forall opcode: byte :: opcode != 0x71 ==> CountWrites(Added(b, s.bus), opcode) == 0
  {
    var w := BusWrite(b, addr, [0x71]);
    WriteStep(b, addr, [0x71]);
    ReadStatusOpcodes(b, addr);
    if w.result.Ok? {
      var rd := BusRead(w.bus, addr, 1);
      ReadStep(w.bus, addr, 1);
      FollowsTrans(b, w.bus, rd.bus);
      assert ReadStatusSpec(b, addr).bus == rd.bus;
    }
  }

  /** read_status writes no opcode but 0x71. */
  lemma ReadStatusOpcodes(b: BusState, addr: byte)
    ensures var s := ReadStatusSpec(b, addr);
      && Follows(b, s.bus)
      && forall opcode: byte :: opcode != 0x71 ==> CountWrites(Added(b, s.bus), opcode) == 0
  {
    var w := BusWrite(b, addr, [0x71]);
    WriteStep(b, addr, [0x71]);
    ReadStatusFollows(b, addr);
    forall opcode: byte | opcode != 0x71
      ensures CountWrites(Added(b, ReadStatusSpec(b, addr).bus), opcode) == 0
    {
      CountWritesOne(Write(addr, [0x71]), opcode);
      if w.result.Ok? {
        CountWritesOne(Read(addr, 1), opcode);
        CountWritesAppend([Write(addr, [0x71])], [Read(addr, 1)], opcode);
        assert [Write(addr, [0x71])] + [Read(addr, 1)] == [Write(addr, [0x71]), Read(addr, 1)];
        ReadStep(w.bus, addr, 1);
      }
    }
  }

  /** read_status on a bus that acknowledges both transactions and holds a one-byte answer. */
  lemma ReadStatusOnCleanBus(b: BusState, addr: byte)
    requires Clean(b, 2) && Queued(b, 1, 1)
    ensures ReadStatusSpec(b, addr)
         == Step(BusState(b.log + [Write(addr, [0x71]), Read(addr, 1)], b.responses[1..], b.faults, b.count + 2, b.failed),
                 Ok(SensorStatus(b.responses[0][0])))
  {
    assert b.count !in b.faults && b.count + 1 !in b.faults;
    assert b.log + [Write(addr, [0x71])] + [Read(addr, 1)] == b.log + [Write(addr, [0x71]), Read(addr, 1)];
  }

  // ------------------------------------------------------------ calibrate

  /** calibrate follows the bus state it starts from and fails fast. */
  lemma CalibrateFollows(b: BusState, addr: byte)
    ensures var s := CalibrateSpec(b, addr);
      Follows(b, s.bus) && FailsFast(s)
  {
    var w := BusWrite(b, addr, [0xE1, 0x08, 0x00]);
    WriteStep(b, addr, [0xE1, 0x08, 0x00]);
    if w.result.Ok? {
      var d := BusDelay(w.bus, 10);
      DelayStep(w.bus, 10);
      FollowsTrans(b, w.bus, d);
      ReadStatusFollows(d, addr);
      FollowsTrans(b, d, ReadStatusSpec(d, addr).bus);
    }
  }

  /** A failed transaction ends calibrate with the transport error that names it. */
  lemma CalibrateStops(b: BusState, addr: byte)
    ensures StopsAtFailure(b, CalibrateSpec(b, addr))
  {
    var w := BusWrite(b, addr, [0xE1, 0x08, 0x00]);
    if w.result.Ok? {
      var d := BusDelay(w.bus, 10);
      var dOk: Step<(), Error> := Step(d, Ok(()));
      assert StopsAtFailure(b, dOk);
      var st := ReadStatusSpec(d, addr);
      ReadStatusFollows(d, addr);
      StopsThen(b, dOk, st);
      if st.result.Ok? {
        NoFailure(b, st);
      }
    }
  }

  /**
   * calibrate fails with a transport error when the bus does not
   * acknowledge all three of its transactions or has no one-byte answer.
   */
  lemma CalibrateProtocol(b: BusState, addr: byte)
    ensures var s := CalibrateSpec(b, addr);
      !(Clean(b, 3) && Queued(b, 1, 1)) ==> s.result.Err? && s.result.error.I2C?
  {
    var w := BusWrite(b, addr, [0xE1, 0x08, 0x00]);
    if w.result.Ok? {
      ReadStatusProtocol(BusDelay(w.bus, 10), addr);
    }
  }

  /** calibrate writes 0xE1 0x08 0x00 first and exactly once, then waits 10 ms. */
  lemma CalibrateWrites(b: BusState, addr: byte)
    ensures var s := CalibrateSpec(b, addr); Follows(b, s.bus)
    ensures var s := CalibrateSpec(b, addr); var log := Added(b, s.bus);
      && |log| >= 1 && log[0] == Write(addr, [0xE1, 0x08, 0x00])
      && CountWrites(log, 0xE1) == 1
      && (b.count !in b.faults ==> |log| >= 2 && log[1] == Delay(10))
  {
    var w := BusWrite(b, addr, [0xE1, 0x08, 0x00]);
    WriteStep(b, addr, [0xE1, 0x08, 0x00]);
    CountWritesOne(Write(addr, [0xE1, 0x08, 0x00]), 0xE1);
    if w.result.Ok? {
      var d := BusDelay(w.bus, 10);
      DelayStep(w.bus, 10);
      FollowsTrans(b, w.bus, d);
      var st := ReadStatusSpec(d, addr);
      ReadStatusProtocol(d, addr);
      FollowsTrans(b, d, st.bus);
      CountWritesOne(Delay(10), 0xE1);
      CountWritesAppend([Write(addr, [0xE1, 0x08, 0x00])], [Delay(10)], 0xE1);
      assert [Write(addr, [0xE1, 0x08, 0x00])] + [Delay(10)] == [Write(addr, [0xE1, 0x08, 0x00]), Delay(10)];
      CountWritesAppend([Write(addr, [0xE1, 0x08, 0x00]), Delay(10)], Added(d, st.bus), 0xE1);
    }
  }

  /**
   * On a bus that acknowledges all three transactions and holds a one-byte
   * answer, calibrate succeeds with that status exactly when its bit 3
   * (calibration enabled) is set, and fails with Internal otherwise.
   */
  lemma CalibrateOnCleanBus(b: BusState, addr: byte)
    requires Clean(b, 3) && Queued(b, 1, 1)
    ensures CalibrateSpec(b, addr)
         == Step(BusState(b.log + [Write(addr, [0xE1, 0x08, 0x00]), Delay(10), Write(addr, [0x71]), Read(addr, 1)],
                          b.responses[1..], b.faults, b.count + 3, b.failed),
                 if Bit(b.responses[0][0], 3) then Ok(SensorStatus(b.responses[0][0])) else Err(Internal))
  {
    var d := BusState(b.log + [Write(addr, [0xE1, 0x08, 0x00])] + [Delay(10)], b.responses, b.faults, b.count + 1, b.failed);
    assert b.count !in b.faults;
    assert BusDelay(BusWrite(b, addr, [0xE1, 0x08, 0x00]).bus, 10) == d;
    assert Clean(d, 2);
    ReadStatusOnCleanBus(d, addr);
    assert d.log + [Write(addr, [0x71]), Read(addr, 1)]
        == b.log + [Write(addr, [0xE1, 0x08, 0x00]), Delay(10), Write(addr, [0x71]), Read(addr, 1)];
  }

  // ----------------------------------------------------------------- init

  /**
   * init only appends to the log, counts every transaction it logs, and
   * stops at the first transport error, which it reports unchanged.
   */
  lemma InitProtocol(b: BusState, addr: byte)
    ensures var s := InitSpec(b, addr);
      Follows(b, s.bus) && FailsFast(s)
  {
    InitWrites(b, addr);
    InitFailsFast(b, addr);
  }

  /** A transport error reported by init names init's last transaction. */
  lemma InitFailsFast(b: BusState, addr: byte)
    ensures FailsFast(InitSpec(b, addr))
  {
    var w := BusWrite(BusDelay(b, 40), addr, [0xBE]);
    var s := InitSpec(b, addr);
    if w.result.Err? {
      assert s == Step(w.bus, Err(I2C(w.result.error)));
    } else {
      var st := ReadStatusSpec(w.bus, addr);
      ReadStatusFollows(w.bus, addr);
      if st.result.Err? {
        assert s == Step(st.bus, Err(st.result.error));
      } else if !IsCalibrationEnabled(st.result.value) {
        var c := CalibrateSpec(st.bus, addr);
        CalibrateFollows(st.bus, addr);
        assert s.bus == c.bus && (s.result.Err? ==> c.result.Err? && s.result.error == c.result.error);
      }
    }
  }

  /** A failed transaction ends init with the transport error that names it. */
  lemma InitStops(b: BusState, addr: byte)
    ensures StopsAtFailure(b, InitSpec(b, addr))
  {
    var w := BusWrite(BusDelay(b, 40), addr, [0xBE]);
    if w.result.Ok? {
      var wOk: Step<(), Error> := Step(w.bus, Ok(()));
      assert StopsAtFailure(b, wOk);
      var st := ReadStatusSpec(w.bus, addr);
      ReadStatusFollows(w.bus, addr);
      StopsThen(b, wOk, st);
      if st.result.Ok? && !IsCalibrationEnabled(st.result.value) {
        CalibrateFollows(st.bus, addr);
        CalibrateStops(st.bus, addr);
        StopsThen(b, st, CalibrateSpec(st.bus, addr));
      }
    }
  }

  /** init always starts with the 40 ms delay and the 0xBE write, and writes 0xE1 at most once. */
  lemma InitWrites(b: BusState, addr: byte)
    ensures var s := InitSpec(b, addr); Follows(b, s.bus)
    ensures var s := InitSpec(b, addr); var log := Added(b, s.bus);
      && |log| >= 2 && log[..2] == [Delay(40), Write(addr, [0xBE])]
      && CountWrites(log, 0xE1) <= 1
  {
    var w := BusWrite(BusDelay(b, 40), addr, [0xBE]);
    InitStart(b, addr);
    if w.result.Ok? {
      var st := ReadStatusSpec(w.bus, addr);
      InitStatus(b, w.bus, addr);
      if st.result.Ok? && !IsCalibrationEnabled(st.result.value) {
        InitCalibrates(b, st.bus, addr);
      }
    }
  }

  /** On a bus that answers the first status read, init calibrates exactly when bit 3 is clear. */
  lemma InitCalibratesIff(b: BusState, addr: byte)
    requires Clean(b, 3) && Queued(b, 1, 1)
    ensures var s := InitSpec(b, addr); Follows(b, s.bus)
    ensures var s := InitSpec(b, addr); var log := Added(b, s.bus);
      && |log| >= 4 && log[..4] == [Delay(40), Write(addr, [0xBE]), Write(addr, [0x71]), Read(addr, 1)]
      && (CountWrites(log, 0xE1) == 1 <==> !Bit(b.responses[0][0], 3))
      && (Bit(b.responses[0][0], 3) ==> s.result == Ok(()) && |log| == 4)
  {
    var w := BusWrite(BusDelay(b, 40), addr, [0xBE]);
    InitStart(b, addr);
    var st := ReadStatusSpec(w.bus, addr);
    InitStatus(b, w.bus, addr);
    if !IsCalibrationEnabled(st.result.value) {
      InitCalibrates(b, st.bus, addr);
    }
  }

  /**
   * On a bus that acknowledges every transaction and answers both status
   * reads, with bit 3 clear in the first: init calibrates, and succeeds
   * exactly when the status after calibration has bit 3 set.
   */
  lemma InitWithCalibration(b: BusState, addr: byte)
    requires Clean(b, 6) && Queued(b, 2, 1) && !Bit(b.responses[0][0], 3)
    ensures InitSpec(b, addr)
         == Step(BusState(b.log + [Delay(40), Write(addr, [0xBE]), Write(addr, [0x71]), Read(addr, 1),
                                   Write(addr, [0xE1, 0x08, 0x00]), Delay(10), Write(addr, [0x71]), Read(addr, 1)],
                          b.responses[2..], b.faults, b.count + 6, b.failed),
                 if Bit(b.responses[1][0], 3) then Ok(()) else Err(Internal))
  {
    var w := BusState(b.log + [Delay(40)] + [Write(addr, [0xBE])], b.responses, b.faults, b.count + 1, b.failed);
    assert b.count !in b.faults;
    assert BusWrite(BusDelay(b, 40), addr, [0xBE]) == Step(w, Ok(()));
    assert Clean(w, 2);
    ReadStatusOnCleanBus(w, addr);
    var st := ReadStatusSpec(w, addr);
    assert Clean(st.bus, 3) && Queued(st.bus, 1, 1);
    CalibrateOnCleanBus(st.bus, addr);
    assert st.bus.responses[1..] == b.responses[2..];
    assert st.bus.log + [Write(addr, [0xE1, 0x08, 0x00]), Delay(10), Write(addr, [0x71]), Read(addr, 1)]
        == b.log + [Delay(40), Write(addr, [0xBE]), Write(addr, [0x71]), Read(addr, 1),
                    Write(addr, [0xE1, 0x08, 0x00]), Delay(10), Write(addr, [0x71]), Read(addr, 1)];
  }

  /** The start of init: the 40 ms delay and the 0xBE write. */
  lemma InitStart(b: BusState, addr: byte)
    ensures var w := BusWrite(BusDelay(b, 40), addr, [0xBE]);
      && Follows(b, w.bus) && Added(b, w.bus) == [Delay(40), Write(addr, [0xBE])]
      && CountWrites(Added(b, w.bus), 0xE1) == 0
  {
    var d := BusDelay(b, 40);
    DelayStep(b, 40);
    var w := BusWrite(d, addr, [0xBE]);
    WriteStep(d, addr, [0xBE]);
    FollowsTrans(b, d, w.bus);
    CountWritesOne(Delay(40), 0xE1);
    CountWritesOne(Write(addr, [0xBE]), 0xE1);
    CountWritesAppend([Delay(40)], [Write(addr, [0xBE])], 0xE1);
    assert [Delay(40)] + [Write(addr, [0xBE])] == [Delay(40), Write(addr, [0xBE])];
  }

  /** init's first status read, after the 0xBE write. */
  lemma InitStatus(b: BusState, w: BusState, addr: byte)
    requires Follows(b, w) && Added(b, w) == [Delay(40), Write(addr, [0xBE])]
    requires CountWrites(Added(b, w), 0xE1) == 0 && w.count == b.count + 1 && w.responses == b.responses
    ensures var st := ReadStatusSpec(w, addr);
      && Follows(b, st.bus) && FailsFast(st)
      && Added(b, st.bus) == Added(b, w) + Added(w, st.bus)
      && CountWrites(Added(b, st.bus), 0xE1) == 0
      && (Clean(b, 3) && Queued(b, 1, 1) ==>
            && Added(b, st.bus) == [Delay(40), Write(addr, [0xBE]), Write(addr, [0x71]), Read(addr, 1)]
            && st.result == Ok(SensorStatus(b.responses[0][0]))
            && st.bus.count == b.count + 3 && st.bus.responses == b.responses[1..])
  {
    var st := ReadStatusSpec(w, addr);
    ReadStatusProtocol(w, addr);
    FollowsTrans(b, w, st.bus);
    CountWritesAppend(Added(b, w), Added(w, st.bus), 0xE1);
    if Clean(b, 3) && Queued(b, 1, 1) {
      assert Clean(w, 2) && Queued(w, 1, 1);
    }
  }

  /** The calibrate branch of init, after a status read that reported calibration disabled. */
  lemma InitCalibrates(b: BusState, mid: BusState, addr: byte)
    requires Follows(b, mid) && CountWrites(Added(b, mid), 0xE1) == 0
    ensures var c := CalibrateSpec(mid, addr);
      && Follows(b, c.bus) && FailsFast(c)
      && Added(b, c.bus) == Added(b, mid) + Added(mid, c.bus)
      && CountWrites(Added(b, c.bus), 0xE1) == 1
  {
    var c := CalibrateSpec(mid, addr);
    CalibrateFollows(mid, addr);
    CalibrateWrites(mid, addr);
    FollowsTrans(b, mid, c.bus);
    CountWritesAppend(Added(b, mid), Added(mid, c.bus), 0xE1);
  }

  // -------------------------------------------------- trigger_measurement

  /** trigger_measurement writes 0xAC 0x33 0x00 and reads nothing. */
  lemma TriggerProtocol(b: BusState, addr: byte)
    ensures var s := TriggerSpec(b, addr);
      && Follows(b, s.bus) && FailsFast(s) && StopsAtFailure(b, s)
      && Added(b, s.bus) == [Write(addr, [0xAC, 0x33, 0x00])]
      && s.bus.responses == b.responses
      && (s.result.Ok? <==> b.count !in b.faults)
  {
    WriteStep(b, addr, [0xAC, 0x33, 0x00]);
  }

  // ----------------------------------------------------------- soft_reset

  /**
   * soft_reset refuses to reset a busy device: the 0xBA write is sent only
   * after a status read that reports not busy, and the status of a second
   * read is returned.
   */
  lemma SoftResetProtocol(b: BusState, addr: byte)
    ensures var s := SoftResetSpec(b, addr);
      Follows(b, s.bus) && FailsFast(s)
    ensures var s := SoftResetSpec(b, addr); var log := Added(b, s.bus);
      && (s.result == Err(UnexpectedBusy) ==>
            log == [Write(addr, [0x71]), Read(addr, 1)] && CountWrites(log, 0xBA) == 0)
      && (Clean(b, 2) && Queued(b, 1, 1) ==>
            (s.result == Err(UnexpectedBusy) <==> Bit(b.responses[0][0], 7)))
  {
    var st := ReadStatusSpec(b, addr);
    ReadStatusProtocol(b, addr);
    if st.result.Ok? && !IsBusy(st.result.value) {
      SoftResetAfterIdle(b, st.bus, addr);
    }
  }

  /** The part of soft_reset after a status read that reported not busy. */
  lemma SoftResetAfterIdle(b: BusState, mid: BusState, addr: byte)
    requires Follows(b, mid)
    ensures var s := AfterIdle(mid, addr);
      && Follows(b, s.bus) && FailsFast(s)
      && s.result != Err(UnexpectedBusy)
  {
    AfterIdleFollows(mid, addr);
    FollowsTrans(b, mid, AfterIdle(mid, addr).bus);
  }

  /** The 0xBA write and the status read after it follow the bus state they start from, and fail fast. */
  lemma AfterIdleFollows(mid: BusState, addr: byte)
    ensures var s := AfterIdle(mid, addr);
      && Follows(mid, s.bus) && FailsFast(s)
      && s.result != Err(UnexpectedBusy)
  {
    var w := BusWrite(mid, addr, [0xBA]);
    WriteStep(mid, addr, [0xBA]);
    if w.result.Ok? {
      var st2 := ReadStatusSpec(w.bus, addr);
      assert AfterIdle(mid, addr) == st2;
      ReadStatusFollows(w.bus, addr);
      FollowsTrans(mid, w.bus, st2.bus);
    }
  }

  /**
   * On a clean bus whose first status reports not busy, soft_reset sends
   * 0xBA between two status reads and returns the second status.
   */
  lemma SoftResetWhenIdle(b: BusState, addr: byte)
    requires Clean(b, 5) && Queued(b, 2, 1) && !Bit(b.responses[0][0], 7)
    ensures var s := SoftResetSpec(b, addr);
      && Added(b, s.bus) == [Write(addr, [0x71]), Read(addr, 1), Write(addr, [0xBA]), Write(addr, [0x71]), Read(addr, 1)]
      && s.result == Ok(SensorStatus(b.responses[1][0]))
  {
    var mid := BusState(b.log + [Write(addr, [0x71]), Read(addr, 1)], b.responses[1..], b.faults, b.count + 2, b.failed);
    ReadStatusOnCleanBus(b, addr);
    var w := BusState(mid.log + [Write(addr, [0xBA])], mid.responses, b.faults, b.count + 3, b.failed);
    assert BusWrite(mid, addr, [0xBA]) == Step(w, Ok(()));
    assert Clean(w, 2) && Queued(w, 1, 1);
    ReadStatusOnCleanBus(w, addr);
    assert w.log + [Write(addr, [0x71]), Read(addr, 1)]
        == b.log + [Write(addr, [0x71]), Read(addr, 1), Write(addr, [0xBA]), Write(addr, [0x71]), Read(addr, 1)];
  }

  /** A failed transaction ends soft_reset with the transport error that names it. */
  lemma SoftResetStops(b: BusState, addr: byte)
    ensures StopsAtFailure(b, SoftResetSpec(b, addr))
  {
    var st := ReadStatusSpec(b, addr);
    ReadStatusFollows(b, addr);
    if st.result.Ok? {
      NoFailure(b, st);
      if !IsBusy(st.result.value) {
        AfterIdleStops(st.bus, addr);
        StopsThen(b, st, AfterIdle(st.bus, addr));
      }
    }
  }

  /** After an idle status, a failed 0xBA write or status read ends soft_reset with its error. */
  lemma AfterIdleStops(mid: BusState, addr: byte)
    ensures StopsAtFailure(mid, AfterIdle(mid, addr))
  {
    var w := BusWrite(mid, addr, [0xBA]);
    if w.result.Ok? {
      var wOk: Step<(), Error> := Step(w.bus, Ok(()));
      assert StopsAtFailure(mid, wOk);
      assert AfterIdle(mid, addr) == ReadStatusSpec(w.bus, addr);
      ReadStatusFollows(w.bus, addr);
      StopsThen(mid, wOk, ReadStatusSpec(w.bus, addr));
    }
  }

  /** A step that stops at a failure and succeeded met no failure. */
  lemma NoFailure<T>(b: BusState, s: Step<T, Error>)
    requires StopsAtFailure(b, s) && s.result.Ok?
    ensures s.bus.failed == b.failed
  {
  }

  // ---------------------------------------------------------- read_sensor

  /** The busy test of the loop, `BUSY_BM & byte0 == 0`, is "bit 7 clear". */
  lemma BusyTest(x: byte)
    ensures (BUSY_BM & x == 0) <==> !Bit(x, 7)
  {
  }

  /**
   * For every bus, the poll loop from iteration `attempt` on never reports
   * DeviceTimeOut, stops at a transport error, and performs between 1 and
   * MAX_ATTEMPTS - attempt bus transactions.
   */
  lemma {:induction false} PollBounds(b: BusState, addr: byte, attempt: nat, frame: seq<byte>)
    requires attempt <= MAX_ATTEMPTS
    ensures var s := Poll(b, addr, attempt, frame);
      && s.result != Err(DeviceTimeOut)
      && Follows(b, s.bus) && FailsFast(s)
      && s.bus.count <= b.count + (MAX_ATTEMPTS - attempt)
      && (attempt < MAX_ATTEMPTS ==> b.count < s.bus.count)
    decreases MAX_ATTEMPTS - attempt
  {
    if attempt < MAX_ATTEMPTS {
      var rd := BusRead(b, addr, BYTES_LEN);
      ReadStep(b, addr, BYTES_LEN);
      if rd.result.Ok? && BUSY_BM & rd.result.value[0] != 0 {
        var d := BusDelay(rd.bus, BUSY_DELAY_MS);
        DelayStep(rd.bus, BUSY_DELAY_MS);
        FollowsTrans(b, rd.bus, d);
        PollBounds(d, addr, attempt + 1, rd.result.value);
        FollowsTrans(b, d, Poll(d, addr, attempt + 1, rd.result.value).bus);
      }
    } else {
      assert Added(b, b) == [];
    }
  }

  /**
   * A failed frame read ends the poll loop with the transport error that
   * names it: the loop never retries after a bus error.
   */
  lemma {:induction false} PollStops(b: BusState, addr: byte, attempt: nat, frame: seq<byte>)
    requires attempt <= MAX_ATTEMPTS
    ensures StopsAtFailure(b, Poll(b, addr, attempt, frame))
    decreases MAX_ATTEMPTS - attempt
  {
    if attempt < MAX_ATTEMPTS {
      var rd := BusRead(b, addr, BYTES_LEN);
      if rd.result.Ok? && BUSY_BM & rd.result.value[0] != 0 {
        var d := BusDelay(rd.bus, BUSY_DELAY_MS);
        var dOk: Step<(), Error> := Step(d, Ok(()));
        assert StopsAtFailure(b, dOk);
        PollStops(d, addr, attempt + 1, rd.result.value);
        StopsThen(b, dOk, Poll(d, addr, attempt + 1, rd.result.value));
      }
    }
  }

  /** The bus after a frame was read and the loop waited 20 ms: the next step of a busy poll. */
  function AfterBusyRead(b: BusState, addr: byte): BusState
    requires |b.responses| > 0
  {
    BusState(b.log + [Read(addr, BYTES_LEN)] + [Delay(BUSY_DELAY_MS)], b.responses[1..], b.faults, b.count + 1, b.failed)
  }

  /**
   * Polling `m` queued frames on a clean bus: read up to the first frame
   * that is not busy, or all `m` when every one is busy, with a 20 ms delay
   * after each busy read, and return the last frame read.
   */
  function PolledOnClean(b: BusState, addr: byte, m: nat): Step<seq<byte>, Error>
    requires 1 <= m <= |b.responses|
  {
    var k := FirstReady(b.responses[..m]);
    var n := if k < m then k + 1 else m;
    Step(BusState(b.log + PollTrace(addr, n, k == m), b.responses[n..], b.faults, b.count + n, b.failed),
         Ok(b.responses[n - 1]))
  }

  /**
   * On a bus with no faults and enough frames queued, the as-written loop
   * from iteration `attempt` on does what PolledOnClean describes: a busy
   * last frame is returned as a measurement.
   */
  lemma {:induction false} PollOnCleanBus(b: BusState, addr: byte, attempt: nat, frame: seq<byte>)
    requires attempt < MAX_ATTEMPTS
    requires Clean(b, MAX_ATTEMPTS - attempt) && Queued(b, MAX_ATTEMPTS - attempt, BYTES_LEN)
    ensures Poll(b, addr, attempt, frame) == PolledOnClean(b, addr, MAX_ATTEMPTS - attempt)
    decreases MAX_ATTEMPTS - attempt, 1
  {
    var m := MAX_ATTEMPTS - attempt;
    var f0 := b.responses[0];
    assert b.count !in b.faults;
    assert b.responses[..m][0] == f0;
    BusyTest(f0[0]);
    if !FrameBusy(f0) {
      assert FirstReady(b.responses[..m]) == 0;
    } else if attempt + 1 == MAX_ATTEMPTS {
      assert FirstReady(b.responses[..m]) == 1 by {
        assert b.responses[..m][1..] == [];
      }
    } else {
      PollBusyStep(b, addr, attempt, frame);
    }
  }

  /** The inductive case of PollOnCleanBus: a busy first frame with attempts left. */
  lemma {:induction false} PollBusyStep(b: BusState, addr: byte, attempt: nat, frame: seq<byte>)
    requires attempt + 1 < MAX_ATTEMPTS
    requires Clean(b, MAX_ATTEMPTS - attempt) && Queued(b, MAX_ATTEMPTS - attempt, BYTES_LEN)
    requires FrameBusy(b.responses[0])
    ensures Poll(b, addr, attempt, frame) == PolledOnClean(b, addr, MAX_ATTEMPTS - attempt)
    decreases MAX_ATTEMPTS - attempt, 0
  {
    var m := MAX_ATTEMPTS - attempt;
    var d := AfterBusyRead(b, addr);
    PollBusyRead(b, addr, attempt, frame);
    assert Clean(d, m - 1) && Queued(d, m - 1, BYTES_LEN);
    PollOnCleanBus(d, addr, attempt + 1, b.responses[0]);
    PolledShift(b, addr, m);
  }

  /** A busy first frame read with attempts left: the loop waits 20 ms and goes on with the next attempt. */
  lemma PollBusyRead(b: BusState, addr: byte, attempt: nat, frame: seq<byte>)
    requires attempt + 1 < MAX_ATTEMPTS
    requires Clean(b, 1) && Queued(b, 1, BYTES_LEN) && FrameBusy(b.responses[0])
    ensures Poll(b, addr, attempt, frame) == Poll(AfterBusyRead(b, addr), addr, attempt + 1, b.responses[0])
  {
    BusyTest(b.responses[0][0]);
    assert b.count !in b.faults;
  }

  lemma FirstReadyBusyHead(frames: seq<seq<byte>>)
    requires |frames| > 0 && FrameBusy(frames[0])
    ensures FirstReady(frames) == 1 + FirstReady(frames[1..])
  {
  }

  lemma PollTraceCons(addr: byte, n: nat, busyLast: bool)
    requires n >= 1
    ensures PollTrace(addr, n + 1, busyLast) == [Read(addr, BYTES_LEN), Delay(BUSY_DELAY_MS)] + PollTrace(addr, n, busyLast)
  {
  }

  /** Polling after a busy first frame is polling the frames after it. */
  lemma PolledShift(b: BusState, addr: byte, m: nat)
    requires 2 <= m <= |b.responses| && FrameBusy(b.responses[0])
    ensures PolledOnClean(b, addr, m) == PolledOnClean(AfterBusyRead(b, addr), addr, m - 1)
  {
    var d := AfterBusyRead(b, addr);
    var k1 := FirstReady(d.responses[..m - 1]);
    var n1 := if k1 < m - 1 then k1 + 1 else m - 1;
    FirstReadyBusyHead(b.responses[..m]);
    assert b.responses[..m][1..] == d.responses[..m - 1];
    PollTraceCons(addr, n1, k1 == m - 1);
    assert d.log + PollTrace(addr, n1, k1 == m - 1)
        == b.log + ([Read(addr, BYTES_LEN), Delay(BUSY_DELAY_MS)] + PollTrace(addr, n1, k1 == m - 1));
    assert d.responses[n1..] == b.responses[n1 + 1..];
  }

  /**
   * read_sensor triggers, waits 80 ms and polls; for every bus it never
   * reports DeviceTimeOut, and after an acknowledged trigger it performs
   * between 1 and MAX_ATTEMPTS further transactions.
   */
  lemma ReadSensorProtocol(b: BusState, addr: byte)
    ensures var s := ReadSensorSpec(b, addr);
      && s.result != Err(DeviceTimeOut)
      && Follows(b, s.bus) && FailsFast(s)
    ensures var s := ReadSensorSpec(b, addr); var log := Added(b, s.bus);
      && |log| >= 1 && log[0] == Write(addr, [0xAC, 0x33, 0x00])
      && (b.count in b.faults ==> s.result.Err? && log == [Write(addr, [0xAC, 0x33, 0x00])])
      && (b.count !in b.faults ==>
            && |log| >= 2 && log[1] == Delay(80)
            && b.count + 2 <= s.bus.count <= b.count + 1 + MAX_ATTEMPTS)
  {
    var t := TriggerSpec(b, addr);
    TriggerProtocol(b, addr);
    if t.result.Ok? {
      var d := BusDelay(t.bus, MEASURE_DELAY_MS);
      DelayStep(t.bus, MEASURE_DELAY_MS);
      FollowsTrans(b, t.bus, d);
      var s := Poll(d, addr, 0, BLANK);
      PollBounds(d, addr, 0, BLANK);
      FollowsTrans(b, d, s.bus);
      assert Added(b, d) == [Write(addr, [0xAC, 0x33, 0x00]), Delay(80)];
    }
  }

  /** A failed trigger write or frame read ends read_sensor with the transport error that names it. */
  lemma ReadSensorStops(b: BusState, addr: byte)
    ensures StopsAtFailure(b, ReadSensorSpec(b, addr))
  {
    var t := TriggerSpec(b, addr);
    TriggerProtocol(b, addr);
    if t.result.Ok? {
      var d := BusDelay(t.bus, MEASURE_DELAY_MS);
      var dOk: Step<(), Error> := Step(d, Ok(()));
      assert StopsAtFailure(b, dOk);
      PollStops(d, addr, 0, BLANK);
      StopsThen(b, dOk, Poll(d, addr, 0, BLANK));
    }
  }

  /**
   * On a bus with no faults and three frames queued, read_sensor writes the
   * trigger, waits 80 ms, then polls as PolledOnClean describes: it returns
   * the first frame that is not busy, or the third when all three are busy.
   */
  lemma ReadSensorOnCleanBus(b: BusState, addr: byte)
    requires Clean(b, 1 + MAX_ATTEMPTS) && Queued(b, MAX_ATTEMPTS, BYTES_LEN)
    ensures ReadSensorSpec(b, addr)
         == PolledOnClean(BusState(b.log + [Write(addr, [0xAC, 0x33, 0x00]), Delay(80)], b.responses, b.faults, b.count + 1, b.failed),
                          addr, MAX_ATTEMPTS)
  {
    var d := BusState(b.log + [Write(addr, [0xAC, 0x33, 0x00])] + [Delay(80)], b.responses, b.faults, b.count + 1, b.failed);
    assert b.count !in b.faults;
    assert BusDelay(TriggerSpec(b, addr).bus, MEASURE_DELAY_MS) == d;
    assert Clean(d, MAX_ATTEMPTS) && Queued(d, MAX_ATTEMPTS, BYTES_LEN);
    PollOnCleanBus(d, addr, 0, BLANK);
    assert d.log == b.log + [Write(addr, [0xAC, 0x33, 0x00]), Delay(80)];
  }

  /**
   * The unit test's exchange: a busy frame, then a ready one. read_sensor
   * reads twice, waits 20 ms between the reads and returns the ready frame.
   */
  lemma ReadSensorBusyThenReady()
    ensures var busy: seq<byte> := [0x98, 0x7E, 0x51, 0x65, 0xD4, 0xA0];
      var ready: seq<byte> := [0x18, 0x7E, 0x51, 0x65, 0xD4, 0xA0];
      var s := ReadSensorSpec(BusState([], [busy, ready], {}, 0, {}), 0x38);
      && s.result == Ok(ready)
      && s.bus.log == [Write(0x38, [0xAC, 0x33, 0x00]), Delay(80), Read(0x38, 6), Delay(20), Read(0x38, 6)]
  {
    var busy: seq<byte> := [0x98, 0x7E, 0x51, 0x65, 0xD4, 0xA0];
    var ready: seq<byte> := [0x18, 0x7E, 0x51, 0x65, 0xD4, 0xA0];
    var b := BusState([], [busy, ready], {}, 0, {});
    var d := BusState([Write(0x38, [0xAC, 0x33, 0x00]), Delay(80)], [busy, ready], {}, 1, {});
    assert BusDelay(TriggerSpec(b, 0x38).bus, MEASURE_DELAY_MS) == d;
    var d2 := BusState(d.log + [Read(0x38, 6), Delay(20)], [ready], {}, 2, {});
    assert BusDelay(BusRead(d, 0x38, 6).bus, BUSY_DELAY_MS) == d2;
    assert BUSY_BM & busy[0] != 0 && BUSY_BM & ready[0] == 0;
  }

  // ------------------------------------------- the timeout branch of read_sensor

  /**
   * As written, read_sensor's timeout test can never succeed: on a clean
   * bus whose three frames all report busy, it returns the third, busy,
   * frame as a successful measurement.
   */
  lemma ReadSensorReturnsBusyFrame(b: BusState, addr: byte)
    requires Clean(b, 1 + MAX_ATTEMPTS) && Queued(b, MAX_ATTEMPTS, BYTES_LEN)
    requires forall j :: 0 <= j < MAX_ATTEMPTS ==> FrameBusy(b.responses[j])
    ensures var s := ReadSensorSpec(b, addr);
      && s.result == Ok(b.responses[MAX_ATTEMPTS - 1])
      && FrameBusy(s.result.value)
  {
    ReadSensorOnCleanBus(b, addr);
    FirstReadyIsFirst(b.responses[..MAX_ATTEMPTS]);
  }

  /** One concrete bus on which read_sensor reports a busy frame as data. */
  lemma ReadSensorBusyExample()
    ensures var busy: seq<byte> := [0x98, 0x7E, 0x51, 0x65, 0xD4, 0xA0];
      var b := BusState([], [busy, busy, busy], {}, 0, {});
      ReadSensorSpec(b, 0x38).result == Ok(busy)
  {
    var busy: seq<byte> := [0x98, 0x7E, 0x51, 0x65, 0xD4, 0xA0];
    var b := BusState([], [busy, busy, busy], {}, 0, {});
    assert Bit(0x98, 7);
    ReadSensorReturnsBusyFrame(b, 0x38);
  }

  /** With the corrected loop, a successful poll never returns a busy frame. */
  lemma {:induction false} PollFixedReady(b: BusState, addr: byte, attempt: nat)
    requires attempt < MAX_ATTEMPTS
    ensures var s := PollFixed(b, addr, attempt);
      s.result.Ok? ==> |s.result.value| == BYTES_LEN && !FrameBusy(s.result.value)
    decreases MAX_ATTEMPTS - attempt
  {
    var rd := BusRead(b, addr, BYTES_LEN);
    if rd.result.Ok? {
      BusyTest(rd.result.value[0]);
      if BUSY_BM & rd.result.value[0] != 0 && attempt < MAX_ATTEMPTS - 1 {
        PollFixedReady(BusDelay(rd.bus, BUSY_DELAY_MS), addr, attempt + 1);
      }
    }
  }

  /**
   * Polling `m` queued frames on a clean bus with the corrected loop: the
   * reads and delays of PolledOnClean, except that no delay follows the
   * last read, and DeviceTimeOut when all `m` frames are busy.
   */
  function PolledFixedOnClean(b: BusState, addr: byte, m: nat): Step<seq<byte>, Error>
    requires 1 <= m <= |b.responses|
  {
    var k := FirstReady(b.responses[..m]);
    var n := if k < m then k + 1 else m;
    Step(BusState(b.log + PollTrace(addr, n, false), b.responses[n..], b.faults, b.count + n, b.failed),
         if k < m then Ok(b.responses[k]) else Err(DeviceTimeOut))
  }

  /** On a clean bus, the corrected loop from iteration `attempt` on does what PolledFixedOnClean describes. */
  lemma {:induction false} PollFixedOnCleanBus(b: BusState, addr: byte, attempt: nat)
    requires attempt < MAX_ATTEMPTS
    requires Clean(b, MAX_ATTEMPTS - attempt) && Queued(b, MAX_ATTEMPTS - attempt, BYTES_LEN)
    ensures PollFixed(b, addr, attempt) == PolledFixedOnClean(b, addr, MAX_ATTEMPTS - attempt)
    decreases MAX_ATTEMPTS - attempt, 1
  {
    var m := MAX_ATTEMPTS - attempt;
    var f0 := b.responses[0];
    assert b.count !in b.faults;
    assert b.responses[..m][0] == f0;
    BusyTest(f0[0]);
    if !FrameBusy(f0) {
      assert FirstReady(b.responses[..m]) == 0;
    } else if attempt == MAX_ATTEMPTS - 1 {
      assert FirstReady(b.responses[..m]) == 1 by {
        assert b.responses[..m][1..] == [];
      }
    } else {
      PollFixedBusyStep(b, addr, attempt);
    }
  }

  /** The inductive case of PollFixedOnCleanBus. */
  lemma {:induction false} PollFixedBusyStep(b: BusState, addr: byte, attempt: nat)
    requires attempt + 1 < MAX_ATTEMPTS
    requires Clean(b, MAX_ATTEMPTS - attempt) && Queued(b, MAX_ATTEMPTS - attempt, BYTES_LEN)
    requires FrameBusy(b.responses[0])
    ensures PollFixed(b, addr, attempt) == PolledFixedOnClean(b, addr, MAX_ATTEMPTS - attempt)
    decreases MAX_ATTEMPTS - attempt, 0
  {
    var m := MAX_ATTEMPTS - attempt;
    var d := AfterBusyRead(b, addr);
    BusyTest(b.responses[0][0]);
    assert b.count !in b.faults;
    assert PollFixed(b, addr, attempt) == PollFixed(d, addr, attempt + 1);
    assert Clean(d, m - 1) && Queued(d, m - 1, BYTES_LEN);
    PollFixedOnCleanBus(d, addr, attempt + 1);
    PolledFixedShift(b, addr, m);
  }

  /** With the corrected loop too, polling after a busy first frame is polling the frames after it. */
  lemma PolledFixedShift(b: BusState, addr: byte, m: nat)
    requires 2 <= m <= |b.responses| && FrameBusy(b.responses[0])
    ensures PolledFixedOnClean(b, addr, m) == PolledFixedOnClean(AfterBusyRead(b, addr), addr, m - 1)
  {
    var d := AfterBusyRead(b, addr);
    var k1 := FirstReady(d.responses[..m - 1]);
    var n1 := if k1 < m - 1 then k1 + 1 else m - 1;
    FirstReadyBusyHead(b.responses[..m]);
    assert b.responses[..m][1..] == d.responses[..m - 1];
    PollTraceCons(addr, n1, false);
    assert d.log + PollTrace(addr, n1, false)
        == b.log + ([Read(addr, BYTES_LEN), Delay(BUSY_DELAY_MS)] + PollTrace(addr, n1, false));
    assert d.responses[n1..] == b.responses[n1 + 1..];
    if k1 < m - 1 {
      assert d.responses[k1] == b.responses[k1 + 1];
    }
  }

  /**
   * With the corrected loop, read_sensor on a clean bus returns the first
   * ready frame, and reports DeviceTimeOut if and only if all three frames
   * are busy.
   */
  lemma ReadSensorFixedOnCleanBus(b: BusState, addr: byte)
    requires Clean(b, 1 + MAX_ATTEMPTS) && Queued(b, MAX_ATTEMPTS, BYTES_LEN)
    ensures var s := ReadSensorFixedSpec(b, addr);
      && (s.result == Err(DeviceTimeOut) <==> forall j :: 0 <= j < MAX_ATTEMPTS ==> FrameBusy(b.responses[j]))
      && (s.result.Ok? ==>
            var k := FirstReady(b.responses[..MAX_ATTEMPTS]);
            k < MAX_ATTEMPTS && s.result.value == b.responses[k] && !FrameBusy(s.result.value))
  {
    var t := TriggerSpec(b, addr);
    assert b.count !in b.faults;
    var d := BusDelay(t.bus, MEASURE_DELAY_MS);
    assert Clean(d, MAX_ATTEMPTS) && Queued(d, MAX_ATTEMPTS, BYTES_LEN);
    PollFixedOnCleanBus(d, addr, 0);
    var frames := b.responses[..MAX_ATTEMPTS];
    var k := FirstReady(frames);
    FirstReadyIsFirst(frames);
    if k < MAX_ATTEMPTS {
      assert frames[k] == b.responses[k];
    } else {
      assert forall j :: 0 <= j < MAX_ATTEMPTS ==> FrameBusy(b.responses[j]) by {
        forall j | 0 <= j < MAX_ATTEMPTS
          ensures FrameBusy(b.responses[j])
        {
          assert frames[j] == b.responses[j];
        }
      }
    }
  }
}
