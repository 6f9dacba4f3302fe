/**
 * The blocking driver: a session object bound to one serial link, holding the
 * device address and the response timeout, and the device operations built on
 * one command/response exchange.
 */
module Session {
  import opened Outcomes
  import opened Frame
  import opened Measurement
  import opened Scanner

  /**
   * The serial link as the driver sees it: the results its next one-byte reads
   * will return (the bytes that arrive after the driver writes), and a record
   * of the frames written to it.
   */
  class Uart {
    var incoming: seq<Option<byte>>
    ghost var written: seq<seq<byte>>

    constructor (incoming: seq<Option<byte>>)
      ensures this.incoming == incoming && written == []
    {
      this.incoming := incoming;
      written := [];
    }

    /** read(1): the next byte, or nothing once no more bytes arrive. */
    method Read() returns (b: Option<byte>)
      modifies this
      ensures b == ReadAt(old(incoming), 0)
      ensures incoming == Drop(old(incoming), 1) && written == old(written)
    {
      if incoming == [] {
        b := None;
      } else {
        b := incoming[0];
        incoming := incoming[1..];
      }
    }

    /** write(frame). */
    method Write(frame: seq<byte>)
      modifies this
      ensures written == old(written) + [frame] && incoming == old(incoming)
    {
      written := written + [frame];
    }
  }

  /** What the reader hands back: the raw frame, or the timeout. */
  function ReaderResult(scan: ScanResult): Result<seq<byte>> {
    match scan
    case Framed(f, _) => Success(f)
    case TimedOut => Failure(TimeOut)
  }

  /** Everything one exchange does: the frames it writes, what it returns, and how many reads it makes. */
  datatype Exchange = Exchange(sent: seq<seq<byte>>, response: Result<seq<byte>>, consumed: nat)

  /**
   * One command/response exchange: build the request (nothing is written if
   * that fails), write it, read a frame within the budget, and check that it
   * echoes the request.
   */
  function Transact(incoming: seq<Option<byte>>, budget: nat, sessionAddress: int,
                    command: int, data: DataArg, address: Option<int>): (x: Exchange)
    ensures x.sent == [] <==> x.response == Failure(ByteOutOfRange)
    ensures x.sent == [] ==> x.consumed == 0
    ensures x.sent != [] ==>
      BuildFrame(command, address, data, sessionAddress).Success? &&
      x.sent == [BuildFrame(command, address, data, sessionAddress).value]
    ensures x.response.Success? ==> 1 <= x.consumed <= budget
    ensures x.response == Failure(TimeOut) ==> x.consumed == budget + 1
    ensures x.response.Failure? ==> x.response.error in {ByteOutOfRange, TimeOut, CommandFailed}
    ensures x.response.Failure? && x.sent != [] ==> x.response.error.IsLaserError()
  {
    match BuildFrame(command, address, data, sessionAddress)
    case Failure(e) => Exchange([], Failure(e), 0)
    case Success(frame) =>
      var scan := Scan(incoming, budget);
      var response := match ReaderResult(scan)
        case Failure(e) => Failure(e)
        case Success(raw) => ProcessFrame(address, command, raw, sessionAddress);
      Exchange([frame], response, Consumed(scan, budget))
  }

  /** The device acknowledges a command with a payload whose first byte is 0x01. */
  function Acknowledged(response: Result<seq<byte>>): (r: Outcome)
    ensures r == Pass <==> response.Success? && |response.value| > 0 && response.value[0] == 0x01
    ensures response.Failure? ==> r == Fail(response.error)
    ensures response.Success? && r.Fail? ==> r.error == CommandFailed
  {
    match response
    case Failure(e) => Fail(e)
    case Success(payload) =>
      if |payload| == 0 || payload[0] != 0x01 then Fail(CommandFailed) else Pass
  }

  /** The distance, in millimetres, that a measurement response carries. */
  function Measured(response: Result<seq<byte>>): (r: Result<int>)
    ensures response.Failure? ==> r == Failure(response.error)
    ensures response.Success? ==> r == InterpretMeasurement(response.value)
  {
    match response
    case Failure(e) => Failure(e)
    case Success(payload) => InterpretMeasurement(payload)
  }

  /**
   * A response that echoes the request's command and address, arriving after
   * reads that bring no start marker and within the budget, is accepted and
   * its data returned, provided no field of it is 0xA8.
   */
  lemma EchoedResponseReturned(noise: seq<Option<byte>>, payload: seq<byte>, later: seq<Option<byte>>,
                               budget: nat, sessionAddress: int, command: int, data: DataArg, address: Option<int>)
    requires BuildFrame(command, address, data, sessionAddress).Success?
    requires address.GetOr(sessionAddress) != FrameEnd && command != FrameEnd && FrameEnd !in payload
    requires Some(FrameStart) !in noise && |noise| + |payload| + 5 <= budget
    ensures var response := Encode(command, address.GetOr(sessionAddress), payload);
      Transact(noise + Arrivals(response) + later, budget, sessionAddress, command, data, address)
        == Exchange([BuildFrame(command, address, data, sessionAddress).value], Success(payload), |noise| + |response|)
  {
    var a := address.GetOr(sessionAddress);
    var response := Encode(command, a, payload);
    EncodedFrameShape(command, a, payload);
    ScanFindsArrivingFrame(noise, response, later, budget);
    EchoAccepted(address, command, sessionAddress, command, a, payload);
  }

  /** A measurement whose response echoes the request yields what the interpreter makes of its payload. */
  lemma MeasurementExchange(noise: seq<Option<byte>>, payload: seq<byte>, later: seq<Option<byte>>,
                            budget: nat, sessionAddress: byte)
    requires sessionAddress != FrameEnd && FrameEnd !in payload
    requires Some(FrameStart) !in noise && |noise| + |payload| + 5 <= budget
    ensures var response := Encode(SingleMeasure, sessionAddress, payload);
      Measured(Transact(noise + Arrivals(response) + later, budget, sessionAddress, SingleMeasure, NoData, None).response)
        == InterpretMeasurement(payload)
  {
    EchoedResponseReturned(noise, payload, later, budget, sessionAddress, SingleMeasure, NoData, None);
  }

  /** End to end: the distance the device spells out in its response is the distance measured. */
  lemma MeasureReportsDistance(noise: seq<Option<byte>>, mm: nat, later: seq<Option<byte>>,
                               budget: nat, sessionAddress: byte)
    requires sessionAddress != FrameEnd
    requires Some(FrameStart) !in noise && |noise| + |DecimalBytes(mm)| + 5 <= budget
    ensures var response := Encode(SingleMeasure, sessionAddress, DecimalBytes(mm));
      Measured(Transact(noise + Arrivals(response) + later, budget, sessionAddress, SingleMeasure, NoData, None).response)
        == Success(mm)
  {
    var digits := DecimalBytes(mm);
    assert FrameEnd !in digits by {
      forall i | 0 <= i < |digits| ensures digits[i] != FrameEnd {
        assert IsDigit(digits[i]);
      }
    }
    MeasurementExchange(noise, digits, later, budget, sessionAddress);
    MeasurementRoundTrip(mm);
  }

  /**
   * At address 0xA8 the device can never be heard: the address byte of its
   * reply ends the frame early, and the two-byte frame [0xAA, 0xA8] fails the
   * checksum check, so every echoed reply is reported as a failed command.
   */
  lemma EndMarkerAddressNeverAnswered(noise: seq<Option<byte>>, command: byte, payload: seq<byte>,
                                      later: seq<Option<byte>>, budget: nat, data: DataArg)
    requires BuildFrame(command, None, data, FrameEnd).Success?
    requires Some(FrameStart) !in noise && |noise| + |payload| + 5 <= budget
    ensures var response := Encode(command, FrameEnd, payload);
      Transact(noise + Arrivals(response) + later, budget, FrameEnd, command, data, None).response
        == Failure(CommandFailed)
  {
    var f := Encode(command, FrameEnd, payload);
    ScanTruncatesAtInnerEnd(noise, command, FrameEnd, payload, later, budget);
    assert FirstEnd(f) == 1 by {
      assert f[1] == FrameEnd;
    }
    assert f[..2] == [FrameStart, FrameEnd];
  }

  class Laser {
    const uart: Uart
    var address: int
    var timeout: nat

    constructor (uart: Uart, address: int, timeout: nat)
      ensures this.uart == uart && this.address == address && this.timeout == timeout
    {
      this.uart := uart;
      this.address := address;
      this.timeout := timeout;
    }

    /**
     * Waits for a start marker, discarding everything before it, then appends
     * bytes until the last one is the end marker. Each read spends one step of
     * the budget; a read made after the budget is spent raises the timeout.
     */
    method ReadFrame() returns (r: Result<seq<byte>>)
      modifies uart
      ensures var scan := Scan(old(uart.incoming), timeout);
        && r == ReaderResult(scan)
        && uart.incoming == Drop(old(uart.incoming), Consumed(scan, timeout))
        && uart.written == old(uart.written)
    {
      ghost var input := uart.incoming;
      ghost var rs := Reads(input, timeout);
      var count: nat := 0;
      var buffer: seq<byte> := [0x00];
      while buffer[0] != FrameStart
        invariant count <= timeout && |buffer| == 1
        invariant count == 0 ==> buffer == [0x00]
        invariant uart.incoming == Drop(input, count) && uart.written == old(uart.written)
        invariant Scan(input, timeout) ==
          if buffer[0] == FrameStart then Collect(rs, count, buffer) else Hunt(rs, count)
        decreases timeout - count
      {
        var b := uart.Read();
        buffer := if b.Some? then [b.value] else [0x00];
        count := count + 1;
        if count > timeout {
          return Failure(TimeOut);
        }
      }
      while buffer[|buffer| - 1] != FrameEnd
        invariant 1 <= count <= timeout
        invariant |buffer| >= 1 && buffer[0] == FrameStart
        invariant uart.incoming == Drop(input, count) && uart.written == old(uart.written)
        invariant buffer[|buffer| - 1] != FrameEnd ==> PartialFrame(buffer)
        invariant Scan(input, timeout) ==
          if buffer[|buffer| - 1] == FrameEnd then Framed(buffer, count) else Collect(rs, count, buffer)
        decreases timeout - count
      {
        var b := uart.Read();
        if b.Some? {
          buffer := buffer + [b.value];
        }
        count := count + 1;
        if count > timeout {
          return Failure(TimeOut);
        }
      }
      return Success(buffer);
    }

    /**
     * Sends `command` with `data` to `address` (the session's when absent) and
     * returns the data of the response, once it has checked that the response
     * echoes the command and the address.
     */
    method SendAndReceive(command: int, data: DataArg, address: Option<int>) returns (r: Result<seq<byte>>)
      modifies uart
      ensures var x := Transact(old(uart.incoming), timeout, this.address, command, data, address);
        && r == x.response
        && uart.incoming == Drop(old(uart.incoming), x.consumed)
        && uart.written == old(uart.written) + x.sent
    {
      var frame := BuildFrame(command, address, data, this.address);
      if frame.Failure? {
        return Failure(frame.error);
      }
      uart.Write(frame.value);
      var raw := ReadFrame();
      if raw.Failure? {
        return Failure(raw.error);
      }
      r := ProcessFrame(address, command, raw.value, this.address);
    }

    /** Sends a command to the session's address and requires the device's acknowledgement. */
    method SendCommandAndRaiseOnFailure(command: int, data: DataArg) returns (r: Outcome)
      modifies uart
      ensures var x := Transact(old(uart.incoming), timeout, address, command, data, None);
        && r == Acknowledged(x.response)
        && uart.incoming == Drop(old(uart.incoming), x.consumed)
        && uart.written == old(uart.written) + x.sent
    {
      var result := SendAndReceive(command, data, None);
      if result.Failure? {
        return Fail(result.error);
      }
      if |result.value| == 0 || result.value[0] != 0x01 {
        return Fail(CommandFailed);
      }
      return Pass;
    }

    /** Turns the laser pointer on or off. */
    method SetLaser(on: bool) returns (r: Outcome)
      modifies uart
      ensures var x := Transact(old(uart.incoming), timeout, address, if on then LaserOn else LaserOff, NoData, None);
        && r == Acknowledged(x.response)
        && uart.incoming == Drop(old(uart.incoming), x.consumed)
        && uart.written == old(uart.written) + x.sent
    {
      if on {
        r := SendCommandAndRaiseOnFailure(LaserOn, NoData);
      } else {
        r := SendCommandAndRaiseOnFailure(LaserOff, NoData);
      }
    }

    /** Stops continuous measuring. */
    method StopMeasuring() returns (r: Outcome)
      modifies uart
      ensures var x := Transact(old(uart.incoming), timeout, address, StopContinuousMeasure, NoData, None);
        && r == Acknowledged(x.response)
        && uart.incoming == Drop(old(uart.incoming), x.consumed)
        && uart.written == old(uart.written) + x.sent
    {
      r := SendCommandAndRaiseOnFailure(StopContinuousMeasure, NoData);
    }

    /** Turns the beep on receiving commands on or off; the data byte is int(on). */
    method SetBuzzer(on: bool) returns (r: Outcome)
      modifies uart
      ensures var x := Transact(old(uart.incoming), timeout, address, BuzzerControl, Single(if on then 1 else 0), None);
        && r == Acknowledged(x.response)
        && uart.incoming == Drop(old(uart.incoming), x.consumed)
        && uart.written == old(uart.written) + x.sent
    {
      r := SendCommandAndRaiseOnFailure(BuzzerControl, Single(if on then 1 else 0));
    }

    /**
     * Asks the device, at the current address, to answer at newAddress from
     * now on; the session adopts newAddress only once the device has
     * acknowledged, so a failed attempt leaves it at the old address.
     */
    method SetSlaveAddress(newAddress: int) returns (r: Outcome)
      modifies this, uart
      ensures var x := Transact(old(uart.incoming), old(timeout), old(address), Frame.SetSlaveAddress, Single(newAddress), None);
        && r == Acknowledged(x.response)
        && uart.incoming == Drop(old(uart.incoming), x.consumed)
        && uart.written == old(uart.written) + x.sent
      ensures address == if r.Pass? then newAddress else old(address)
      ensures timeout == old(timeout)
    {
      r := SendCommandAndRaiseOnFailure(Frame.SetSlaveAddress, Single(newAddress));
      if r.Fail? {
        return;
      }
      address := newAddress;
    }

    /** Makes a single reading and returns the distance in millimetres. */
    method Measure() returns (r: Result<int>)
      modifies uart
      ensures var x := Transact(old(uart.incoming), timeout, address, SingleMeasure, NoData, None);
        && r == Measured(x.response)
        && uart.incoming == Drop(old(uart.incoming), x.consumed)
        && uart.written == old(uart.written) + x.sent
    {
      var result := SendAndReceive(SingleMeasure, NoData, None);
      if result.Failure? {
        return Failure(result.error);
      }
      r := InterpretMeasurement(result.value);
    }

    /** A single reading in centimetres: the distance in millimetres divided by ten. */
    method Distance() returns (r: Result<real>)
      modifies uart
      ensures var x := Transact(old(uart.incoming), timeout, address, SingleMeasure, NoData, None);
        && (Measured(x.response).Failure? ==> r == Failure(Measured(x.response).error))
        && (Measured(x.response).Success? ==> r == Success(Measured(x.response).value as real / 10.0))
        && uart.incoming == Drop(old(uart.incoming), x.consumed)
        && uart.written == old(uart.written) + x.sent
    {
      var mm := Measure();
      if mm.Failure? {
        return Failure(mm.error);
      }
      r := Success(mm.value as real / 10.0);
    }
  }
}
