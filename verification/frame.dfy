/**
 * The frame codec of the Egismos laser protocol:
 *   START(0xAA) ADDRESS COMMAND DATA* CHECKSUM END(0xA8)
 * where CHECKSUM = (COMMAND + ADDRESS + sum DATA) & 0x7F.
 * Building, parsing and checking that a response echoes its request.
 */
module Frame {
  import opened Outcomes

  /** One octet on the wire. */
  type byte = x: int | 0 <= x < 0x100

  predicate IsByte(x: int) {
    0 <= x < 0x100
  }

  predicate AllBytes(s: seq<int>) {
    forall i :: 0 <= i < |s| ==> IsByte(s[i])
  }

  const FrameEnd: byte := 0xA8
  const FrameStart: byte := 0xAA

  // Command opcodes understood by the device.
  const BuzzerControl: byte := 0x47
  const StopContinuousMeasure: byte := 0x46
  const ContinuousMeasure: byte := 0x45
  const SingleMeasure: byte := 0x44
  const LaserOff: byte := 0x43
  const LaserOn: byte := 0x42
  const ReadDeviceErr: byte := 0x08
  const SetSlaveAddress: byte := 0x41
  const ReadSlaveAddress: byte := 0x04
  const ReadDevType: byte := 0x02
  const ReadSwVersion: byte := 0x01

  function Sum(s: seq<int>): int {
    if s == [] then 0 else s[0] + Sum(s[1..])
  }

  /** The 7-bit additive checksum; Python's `& 0x7F` equals Dafny's `% 0x80` on every integer. */
  function Checksum(command: int, address: int, data: seq<int>): (c: byte)
    ensures c < 0x80 && c != FrameEnd
    ensures (c - command - address - Sum(data)) % 0x80 == 0
  {
    (command + address + Sum(data)) % 0x80
  }

  /** The bytes of a frame whose fields are already known to be bytes. */
  function Encode(command: byte, address: byte, data: seq<byte>): (f: seq<byte>)
    ensures |f| == |data| + 5
    ensures f[0] == FrameStart && f[|f| - 1] == FrameEnd
    ensures f[1] == address && f[2] == command && f[3..|f| - 2] == data
    ensures f[|f| - 2] == Checksum(command, address, data)
  {
    [FrameStart, address, command] + data + [Checksum(command, address, data), FrameEnd]
  }

  /** The `data` argument of the codec: None, a single int, or a list of ints. */
  datatype DataArg = NoData | Single(value: int) | Many(values: seq<int>)

  function DataValues(data: DataArg): seq<int> {
    match data
    case NoData => []
    case Single(x) => [x]
    case Many(xs) => xs
  }

  /**
   * Builds the frame for `command`, sent to `address` or, when that is absent,
   * to the session's address. Fails, as `bytes()` does, when a field is not a byte.
   */
  function BuildFrame(command: int, address: Option<int>, data: DataArg, sessionAddress: int): (r: Result<seq<byte>>)
    ensures r.Success? <==>
      IsByte(command) && IsByte(address.GetOr(sessionAddress)) && AllBytes(DataValues(data))
    ensures r.Failure? ==> r.error == ByteOutOfRange
    ensures r.Success? ==> |r.value| == |DataValues(data)| + 5
    ensures r.Success? ==> r.value == Encode(command, address.GetOr(sessionAddress), DataValues(data))
    ensures r.Success? ==>
      ParseFrame(r.value) == Success(Parsed(command, address.GetOr(sessionAddress), DataValues(data)))
  {
    var a := address.GetOr(sessionAddress);
    var d := DataValues(data);
    if IsByte(command) && IsByte(a) && AllBytes(d) then
      var bytes: seq<byte> := d;
      FrameRoundTrip(command, a, bytes);
      Success(Encode(command, a, bytes))
    else
      Failure(ByteOutOfRange)
  }

  /** The fields of a frame that passed the marker and checksum checks. */
  datatype Parsed = Parsed(command: byte, address: byte, data: seq<byte>)

  /**
   * Checks the start marker, then the end marker, then the checksum, and
   * returns (command, address, data), with Python's slice semantics:
   * the checksum covers frame[1:-2] and the data is frame[3:-2].
   */
  function ParseFrame(frame: seq<byte>): (r: Result<Parsed>)
    ensures |frame| == 0 <==> r == Failure(EmptyFrame)
    ensures r.Failure? && |frame| > 0 ==> r.error == CommandFailed
    ensures r.Success? ==>
      && |frame| >= 3
      && frame[0] == FrameStart && frame[|frame| - 1] == FrameEnd
      && r.value.address == frame[1] && r.value.command == frame[2]
    ensures |frame| >= 5 ==>
      (r.Success? <==>
         && frame[0] == FrameStart && frame[|frame| - 1] == FrameEnd
         && frame[|frame| - 2] == Checksum(frame[2], frame[1], frame[3..|frame| - 2]))
  {
    var n := |frame|;
    if n == 0 then Failure(EmptyFrame)
    else if frame[0] != FrameStart then Failure(CommandFailed)
    else if frame[n - 1] != FrameEnd then Failure(CommandFailed)
    else
      // n >= 2 here, since one byte cannot be both markers; frame[1:-2] is empty below 3 bytes
      var covered := if n >= 3 then frame[1..n - 2] else [];
      SumOfFields(covered);
      if frame[n - 2] != Sum(covered) % 0x80 then Failure(CommandFailed)
      else Success(Parsed(frame[2], frame[1], if n >= 5 then frame[3..n - 2] else []))
  }

  /** Sum splits off the two leading fields (address and command) of the checksummed slice. */
  lemma SumOfFields(s: seq<int>)
    ensures |s| >= 2 ==> Sum(s) == s[0] + s[1] + Sum(s[2..])
  {
    if |s| >= 2 {
      assert s[1..][1..] == s[2..];
    }
  }

  /** Parsing an encoded frame gives back exactly its command, address and data. */
  lemma {:induction false} FrameRoundTrip(command: byte, address: byte, data: seq<byte>)
    ensures ParseFrame(Encode(command, address, data)) == Success(Parsed(command, address, data))
  {
    var f := Encode(command, address, data);
    var n := |f|;
    assert f[1..n - 2] == [address, command] + data;
    SumOfFields(f[1..n - 2]);
    assert f[1..n - 2][2..] == data;
  }

  /** The converse: every accepted frame of five bytes or more is the encoding of what it parses to. */
  lemma {:induction false} AcceptedFrameIsEncoded(frame: seq<byte>)
    requires |frame| >= 5 && ParseFrame(frame).Success?
    ensures var p := ParseFrame(frame).value;
      frame == Encode(p.command, p.address, p.data)
  {
    var n := |frame|;
    var p := ParseFrame(frame).value;
    var e := Encode(p.command, p.address, p.data);
    assert frame[1..n - 2][2..] == p.data;
    assert frame[1..n - 2] == [frame[1], frame[2]] + p.data;
    assert |e| == n;
    forall i | 0 <= i < n ensures e[i] == frame[i] {
      if 3 <= i < n - 2 {
        assert e[i] == e[3..n - 2][i - 3];
      }
    }
  }

  /**
   * Because of Python's slicing, 3- and 4-byte buffers can pass every check:
   * [AA, 00, A8] and [AA, a, a & 0x7F, A8] are accepted with empty data, the
   * command byte being the end marker or doubling as the checksum.
   */
  lemma {:induction false} ShortFramesAccepted(frame: seq<byte>)
    requires |frame| < 5
    ensures ParseFrame(frame).Success? <==>
      || frame == [FrameStart, 0, FrameEnd]
      || (|frame| == 4 && frame[0] == FrameStart && frame[3] == FrameEnd && frame[2] == frame[1] % 0x80)
    ensures ParseFrame(frame).Success? ==> ParseFrame(frame).value.data == []
  {
    var n := |frame|;
    if n == 4 {
      assert frame[1..2] == [frame[1]];
      assert Sum(frame[1..2]) == frame[1] + Sum([]);
    }
  }

  /** A concrete short frame that is accepted although it carries no checksum byte of its own. */
  lemma ShortFrameExample()
    ensures ParseFrame([0xAA, 0x42, 0x42, 0xA8]) == Success(Parsed(0x42, 0x42, []))
  {
    assert [0xAA, 0x42, 0x42, 0xA8][1..2] == [0x42];
    assert Sum([0x42]) == 0x42 + Sum([]);
  }

  /** Any other value in the checksum position of an encoded frame is rejected. */
  lemma {:induction false} CorruptChecksumRejected(command: byte, address: byte, data: seq<byte>, v: byte)
    requires v != Checksum(command, address, data)
    ensures var f := Encode(command, address, data);
      ParseFrame(f[|f| - 2 := v]) == Failure(CommandFailed)
  {
    var f := Encode(command, address, data);
    var g := f[|f| - 2 := v];
    assert g[2] == command && g[1] == address && g[3..|g| - 2] == data;
  }

  /** Any other value in the start or the end position of an encoded frame is rejected. */
  lemma {:induction false} CorruptMarkerRejected(command: byte, address: byte, data: seq<byte>, v: byte)
    ensures var f := Encode(command, address, data);
      v != FrameStart ==> ParseFrame(f[0 := v]) == Failure(CommandFailed)
    ensures var f := Encode(command, address, data);
      v != FrameEnd ==> ParseFrame(f[|f| - 1 := v]) == Failure(CommandFailed)
  {
  }

  /** The frame for a single measurement at the default address, byte for byte. */
  lemma BuildFrameExample()
    ensures BuildFrame(SingleMeasure, None, NoData, 0x01) == Success([0xAA, 0x01, 0x44, 0x45, 0xA8])
  {
    assert Checksum(SingleMeasure, 0x01, []) == 0x45;
    assert Encode(SingleMeasure, 0x01, []) == [0xAA, 0x01, 0x44, 0x45, 0xA8];
  }

  /**
   * Checks that a response echoes the request: the parsed command must be the
   * one sent and the parsed address the one sent to (the session's when none
   * was given). Returns the response's data.
   */
  function ProcessFrame(address: Option<int>, command: int, frame: seq<byte>, sessionAddress: int): (r: Result<seq<byte>>)
    ensures r.Success? <==>
      && ParseFrame(frame).Success?
      && ParseFrame(frame).value.command == command
      && ParseFrame(frame).value.address == address.GetOr(sessionAddress)
    ensures r.Success? ==> r.value == ParseFrame(frame).value.data
    ensures ParseFrame(frame).Failure? ==> r == Failure(ParseFrame(frame).error)
    ensures ParseFrame(frame).Success? && r.Failure? ==> r.error == CommandFailed
  {
    var expected := address.GetOr(sessionAddress);
    match ParseFrame(frame)
    case Failure(e) => Failure(e)
    case Success(p) =>
      if command != p.command then Failure(CommandFailed)
      else if expected != p.address then Failure(CommandFailed)
      else Success(p.data)
  }

  /**
   * A well-formed response is accepted exactly when it echoes the command and
   * the expected address, and then its data is returned unchanged.
   */
  lemma {:induction false} EchoAccepted(address: Option<int>, command: int, sessionAddress: int,
                                        rCommand: byte, rAddress: byte, rData: seq<byte>)
    ensures var r := ProcessFrame(address, command, Encode(rCommand, rAddress, rData), sessionAddress);
      && (r.Success? <==> rCommand == command && rAddress == address.GetOr(sessionAddress))
      && (r.Success? ==> r.value == rData)
      && (r.Failure? ==> r.error == CommandFailed)
  {
    FrameRoundTrip(rCommand, rAddress, rData);
  }
}
