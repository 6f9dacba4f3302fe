# Egismos laser rangefinder driver, modelled in Dafny

This is a model of the blocking driver for the Egismos laser distance module,
together with proofs about it. The driver talks to the device over a serial
link using a framed binary protocol:

    0xAA  ADDRESS  COMMAND  DATA...  CHECKSUM  0xA8

Here CHECKSUM is `(COMMAND + ADDRESS + sum DATA) & 0x7F`. Every command is one
exchange. The driver builds a request frame and writes it. It then waits for
a response frame within a timeout, and checks that the response echoes the
request's command and address. The data of the response is an
acknowledgement (first byte 0x01), a distance in millimetres spelt in ASCII
digits, or one of three ASCII error codes.

The modules follow the layers of the driver:

- `Outcomes` (outcomes.dfy): `Option`, `Result` and `Outcome`, plus the
  driver's error taxonomy.
  - The first five `Error` kinds are the driver's exception classes:
    `LaserCommandFailedError`, `BadReadingError`, `TooDimError`,
    `TooBrightError` and `LaserTimeOutError`, all kinds of `LaserError`.
  - The last two are the built-in errors that the codec lets escape.
    `ByteOutOfRange` is the `ValueError` that `bytes()` raises for a field
    outside 0..255. `EmptyFrame` is the `IndexError` raised by `frame[0]` on
    an empty buffer.
- `Frame` (frame.dfy): building, parsing and echo-checking frames, as pure
  functions.
- `Measurement` (measurement.dfy): interpreting the payload of a measurement
  response.
- `Scanner` (scanner.dfy): specification functions for the frame reader, and
  the proof that it returns the first frame in the byte stream.
  - The serial link is a queue of read results: `Some(b)` for a byte, `None`
    for an empty read.
  - The wall clock becomes a step budget: after the k-th read, counting from
    1, the deadline has passed exactly when k > budget.
- `Session` (session.dfy): the `Uart` and `Laser` classes.
  - `Laser` holds the mutable `address` and `timeout` fields.
  - Its methods are the imperative code of the driver. The reader keeps its
    two loops, and `set_slave_address` updates the address field.
  - Each method is proved against the specification function `Transact`,
    which describes one exchange.

The parser follows the code's Python slicing exactly. Short buffers can pass
every check: `[0xAA, 0x00, 0xA8]`, and `[0xAA, a, a & 0x7F, 0xA8]` for any
`a`, are accepted with empty data (`Frame.ShortFramesAccepted`).

Because the reader stops at the first 0xA8, a response whose address, command
or data holds 0xA8 is cut short (`Scanner.ScanTruncatesAtInnerEnd`). The
checksum never equals 0xA8. The `set_slave_address` docstring allows any
address from 1 to 255. After moving to 0xA8, however, every reply of the
device is rejected (`Session.EndMarkerAddressNeverAnswered`).

## Model

| member | source | states |
|---|---|---|
| Outcomes.Error.IsLaserError | laser_egismos.py:42-75 | Exactly the five kinds modelling the driver's exception classes (command failed, bad reading, too dim, too bright, timed out) are LaserErrors; the ValueError and IndexError kinds are not |
| Frame.Checksum | laser_egismos.py:124 | The checksum is below 0x80, so it is never the end marker 0xA8, and it is congruent modulo 0x80 to command + address + sum of data |
| Frame.Encode | laser_egismos.py:124-126 | The frame is 5 bytes longer than its data; it starts with 0xAA and ends with 0xA8; address, command and data sit at positions 1, 2 and 3..len-3, and the checksum of command, address and data at position len-2 |
| Frame.BuildFrame | laser_egismos.py:107-126 | The frame is built exactly when command, address (the session's when none is given) and every data value are bytes, otherwise ByteOutOfRange; no data is an empty list and an int is a one-element list; the frame is the encoding [0xAA, address, command] + data + [checksum, 0xA8], of length 5 + data length, and parses back to the fields it was built from |
| Frame.ParseFrame | laser_egismos.py:128-150 | Empty input fails with EmptyFrame; every other rejection is CommandFailed; an accepted frame starts with 0xAA and ends with 0xA8, and its address and command are bytes 1 and 2; a frame of 5 bytes or more is accepted exactly when both markers and the checksum over frame[1:-2] are right |
| Frame.FrameRoundTrip | laser_egismos.py:107-150 | Parsing the encoding of any command, address and data bytes gives back exactly that command, address and data |
| Frame.AcceptedFrameIsEncoded | laser_egismos.py:128-150 | Every accepted frame of 5 bytes or more is the encoding of the command, address and data it parses to |
| Frame.ShortFramesAccepted | laser_egismos.py:136-150 | A buffer shorter than 5 bytes is accepted exactly when it is [0xAA, 0, 0xA8], or 4 bytes with both markers and byte 2 equal to byte 1 & 0x7F; its data is then empty |
| Frame.ShortFrameExample | laser_egismos.py:136-150 | [0xAA, 0x42, 0x42, 0xA8] is accepted as command 0x42 and address 0x42 with no data |
| Frame.CorruptChecksumRejected | laser_egismos.py:142-146 | An encoded frame with any other value in the checksum position fails with CommandFailed |
| Frame.CorruptMarkerRejected | laser_egismos.py:136-141 | An encoded frame with any other value in the start or end position fails with CommandFailed |
| Frame.BuildFrameExample | laser_egismos.py:107-126 | A single measurement at address 1 is the frame AA 01 44 45 A8 |
| Frame.ProcessFrame | laser_egismos.py:152-166 | The response data is returned exactly when the frame parses and echoes the sent command and the expected address (the session's when none was given); a parse error is passed on unchanged; a mismatch is CommandFailed |
| Frame.EchoAccepted | laser_egismos.py:152-166 | A well-formed response is accepted exactly when it echoes the command and the expected address, and then its data is returned unchanged; otherwise CommandFailed |
| Measurement.InterpretMeasurement | laser_egismos.py:168-182 | ERR256, ERR255 and ERR204, and only they, give TooBright, TooDim and BadReading; a payload succeeds exactly when it is a non-empty run of ASCII digits, with the value they spell; every other payload is CommandFailed |
| Measurement.DecimalRoundTrip | laser_egismos.py:179 | Reading the decimal digits of any natural number gives that number back |
| Measurement.MeasurementRoundTrip | laser_egismos.py:168-182 | Any distance spelt in decimal digits comes out of the interpreter as that distance |
| Measurement.MeasurementExample | laser_egismos.py:179-182 | The payload "1234" is read as 1234 mm |
| Scanner.Hunt | laser_egismos.py:193-197 | The first loop of the reader: any frame it yields uses more reads than it started at, no more than the budget, and has frame shape (starts 0xAA, ends 0xA8, no earlier 0xA8) |
| Scanner.Collect | laser_egismos.py:198-202 | The second loop of the reader: any frame it yields extends the partial buffer, has frame shape and uses no more reads than the budget |
| Scanner.Scan | laser_egismos.py:190-202 | A frame returned by the reader has frame shape and was read in 1..budget reads |
| Scanner.CollectFindsEnd | laser_egismos.py:198-202 | If an end marker is delivered before the deadline, the second loop returns the buffer extended by the bytes up to and including the first one |
| Scanner.CollectEndsAtFirstEnd | laser_egismos.py:198-202 | If the second loop returns a frame, the bytes delivered from that read on hold an end marker |
| Scanner.HuntFindsFirstFrame | laser_egismos.py:193-202 | If the delivered bytes hold a start marker followed by an end marker, the reader returns the bytes from the first start marker to the first end marker after it |
| Scanner.HuntNeedsFrame | laser_egismos.py:193-202 | If the reader returns a frame, the delivered bytes hold a start marker followed by an end marker |
| Scanner.ScanIsFirstFrame | laser_egismos.py:190-202 | The reader returns a frame exactly when the bytes delivered before the deadline hold a start marker followed later by an end marker; the frame is then the segment from the first start marker to the next end marker; otherwise it times out |
| Scanner.HuntSkipsNoise | laser_egismos.py:194-197 | Reads that bring no start marker are discarded by the first loop |
| Scanner.CollectTakesArrivals | laser_egismos.py:198-202 | Bytes that arrive one per read, the last one the only end marker, are appended to the buffer and complete the frame |
| Scanner.ScanFindsArrivingFrame | laser_egismos.py:190-202 | A frame-shaped run of bytes arriving within the budget, after reads without a start marker, is returned exactly, having used as many reads as precede its end |
| Scanner.ScanFindsArrivingPrefix | laser_egismos.py:190-202 | If a prefix of the arriving bytes is frame-shaped, the reader returns that prefix and ignores what follows |
| Scanner.EncodedFrameShape | laser_egismos.py:124-126 | An encoded frame holds no 0xA8 before its last byte exactly when neither its address, its command nor its data is 0xA8 |
| Scanner.InnerEndPrefix | laser_egismos.py:124-126 | If the address, command or data is 0xA8, the first 0xA8 of the encoded frame lies inside it and the prefix up to it has frame shape |
| Scanner.ScanTruncatesAtInnerEnd | laser_egismos.py:198-202 | A response whose address, command or data holds 0xA8 is returned cut off at its first 0xA8, a proper prefix of the response |
| Session.Uart.Read | laser_egismos.py:195 | A read returns the head of the incoming queue and removes it, or returns nothing when the queue is empty; nothing is written |
| Session.Uart.Write | laser_egismos.py:209 | Writing appends the frame to the log of written frames and leaves the incoming queue alone |
| Session.Transact | laser_egismos.py:204-212 | Nothing is written exactly when building the request fails with ByteOutOfRange, and then nothing is read; otherwise exactly the built frame is written; a success used 1..budget reads, a timeout budget + 1; the only failures are ByteOutOfRange, TimeOut and CommandFailed, and once the request is written every failure is one of the driver's own LaserError kinds |
| Session.Acknowledged | laser_egismos.py:220-222 | A command passes exactly when the response data is non-empty and starts with 0x01; an error of the exchange is passed on; any other reply is CommandFailed |
| Session.Measured | laser_egismos.py:278-280 | An error of the exchange is passed on; otherwise the result is the interpreted payload |
| Session.EchoedResponseReturned | laser_egismos.py:204-212 | A reply that echoes the request, with no 0xA8 in its fields, arriving within the budget after reads without a start marker, makes the exchange write the request and return the reply's data |
| Session.MeasurementExchange | laser_egismos.py:261-280 | A measurement whose echoed reply arrives in time yields what the interpreter makes of the reply's data |
| Session.MeasureReportsDistance | laser_egismos.py:261-280 | When the device replies with the digits of a distance, the measurement returns that distance |
| Session.EndMarkerAddressNeverAnswered | laser_egismos.py:252-259 | With the session address at 0xA8, every echoed reply is rejected with CommandFailed |
| Session.Laser.constructor | laser_egismos.py:94-105 | The session keeps the link, the address and the timeout it is given |
| Session.Laser.ReadFrame | laser_egismos.py:190-202 | The two loops return what Scan specifies over the queue and the budget (the frame or the timeout); exactly the reads they made leave the queue; nothing is written |
| Session.Laser.SendAndReceive | laser_egismos.py:204-212 | Returns the response of Transact at the session's address and timeout; the queue loses exactly the reads made and the written log gains exactly the request |
| Session.Laser.SendCommandAndRaiseOnFailure | laser_egismos.py:214-222 | Passes exactly when the exchange's reply is acknowledged; states the link's new state |
| Session.Laser.SetLaser | laser_egismos.py:224-233 | Sends LASER_ON (0x42) when asked to turn on and LASER_OFF (0x43) otherwise, and requires the acknowledgement |
| Session.Laser.StopMeasuring | laser_egismos.py:235-241 | Sends STOP_CONTINUOUS_MEASURE (0x46) and requires the acknowledgement |
| Session.Laser.SetBuzzer | laser_egismos.py:243-250 | Sends BUZZER_CONTROL (0x47) with the data byte 1 or 0, and requires the acknowledgement |
| Session.Laser.SetSlaveAddress | laser_egismos.py:252-259 | Sends SET_SLAVE_ADDRESS (0x41) with the new address, to the old address; the session adopts the new address exactly when the device acknowledges and otherwise keeps the old one; the timeout is unchanged |
| Session.Laser.Measure | laser_egismos.py:261-280 | Sends SINGLE_MEASURE (0x44) and returns the interpreted reply: the distance in mm, a device error kind, or the exchange's error |
| Session.Laser.Distance | laser_egismos.py:282-290 | The measured distance in mm divided by ten, or the measurement's error |

## Left out

- The asynchronous driver `AsyncLaser` (laser_egismos.py:293-395) is not part of this model. It relies on asyncio streams and external cancellation for its timeout. Its reader at lines 308-309 would index an empty buffer after an empty read.
- The wall clock (`time.monotonic`, float seconds) is replaced by a budget counted in reads. Real elapsed time per read, including reads that block, is not modelled. The default timeout of 5.0 seconds is therefore not a constant here.
- `reset_input_buffer` (laser_egismos.py:208) is not modelled: the incoming queue holds the reads made after the request is written. Bytes that arrive between clearing and writing, a race between the driver and the device, cannot be expressed sequentially.
- Constructing the `busio.UART` is not modelled. The link is the `Uart` class: a queue of read results and a ghost log of written frames.
- Session.Laser.constructor: the default arguments (address 0x01, timeout 5.0 seconds) are not modelled; both are passed explicitly.
- Measurement.InterpretMeasurement: Python's `int()` also accepts surrounding whitespace, a sign and underscores. The model accepts only non-empty runs of ASCII digits and reports everything else as CommandFailed.
- Session.Laser.Distance: the division is exact division of reals, not floating-point division with its rounding.
- Error message strings are not modelled; only the kind of error is.
- The example scripts laser_egismos_simpletest.py and laser_egismos_async_test.py are not part of this model. They handle power sequencing, printing and sleeping, not protocol logic.
- Opcodes the driver defines but never sends (CONTINUOUS_MEASURE, READ_DEVICE_ERR, READ_SLAVE_ADDRESS, READ_DEV_TYPE, READ_SW_VERSION) appear as constants only.
