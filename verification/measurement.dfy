/**
 * Interpretation of the payload of a single-measurement response: one of the
 * device's three ASCII error codes, or the distance in millimetres as ASCII
 * decimal digits.
 */
module Measurement {
  import opened Outcomes
  import opened Frame

  /** "ERR256": too much ambient light, or the target is too close. */
  const ErrTooBright: seq<byte> := [0x45, 0x52, 0x52, 0x32, 0x35, 0x36]
  /** "ERR255": the laser spot is too dim. */
  const ErrTooDim: seq<byte> := [0x45, 0x52, 0x52, 0x32, 0x35, 0x35]
  /** "ERR204": no stable reading, the target may be moving. */
  const ErrBadReading: seq<byte> := [0x45, 0x52, 0x52, 0x32, 0x30, 0x34]

  predicate IsDigit(b: byte) {
    0x30 <= b <= 0x39
  }

  /** A non-empty run of ASCII decimal digits. */
  predicate IsDecimal(s: seq<byte>) {
    |s| > 0 && forall i :: 0 <= i < |s| ==> IsDigit(s[i])
  }

  /** The number that a run of ASCII digits denotes, most significant digit first. */
  function DecimalValue(s: seq<byte>): (n: nat)
    requires forall i :: 0 <= i < |s| ==> IsDigit(s[i])
  {
    if s == [] then 0
    else
      assert IsDigit(s[|s| - 1]);
      10 * DecimalValue(s[..|s| - 1]) + (s[|s| - 1] - 0x30)
  }

  /** The shortest ASCII decimal spelling of n, as the device sends it. */
  function DecimalBytes(n: nat): (s: seq<byte>)
    ensures IsDecimal(s)
    ensures s[0] == 0x30 ==> n == 0
  {
    if n < 10 then [0x30 + n] else DecimalBytes(n / 10) + [0x30 + n % 10]
  }

  /**
   * The three error codes map to their own error kinds, a decimal payload to
   * its value, and anything else to a failed command.
   */
  function InterpretMeasurement(payload: seq<byte>): (r: Result<int>)
    ensures r == Failure(TooBright) <==> payload == ErrTooBright
    ensures r == Failure(TooDim) <==> payload == ErrTooDim
    ensures r == Failure(BadReading) <==> payload == ErrBadReading
    ensures r.Success? <==> IsDecimal(payload)
    ensures r.Success? ==> r.value == DecimalValue(payload) >= 0
    ensures r.Failure? ==> r.error in {TooBright, TooDim, BadReading, CommandFailed}
  {
    // none of the error codes is decimal: they start with 'E'
    assert !IsDigit(ErrTooBright[0]) && !IsDigit(ErrTooDim[0]) && !IsDigit(ErrBadReading[0]);
    if payload == ErrTooBright then Failure(TooBright)
    else if payload == ErrTooDim then Failure(TooDim)
    else if payload == ErrBadReading then Failure(BadReading)
    else if IsDecimal(payload) then Success(DecimalValue(payload))
    else Failure(CommandFailed)
  }

  /** Reading back the device's spelling of a distance gives the distance. */
  lemma {:induction false} DecimalRoundTrip(n: nat)
    ensures DecimalValue(DecimalBytes(n)) == n
  {
    if n >= 10 {
      var s := DecimalBytes(n);
      assert s[..|s| - 1] == DecimalBytes(n / 10);
      DecimalRoundTrip(n / 10);
    }
  }

  /** Every distance the device can report comes out of the interpreter unchanged. */
  lemma {:induction false} MeasurementRoundTrip(n: nat)
    ensures InterpretMeasurement(DecimalBytes(n)) == Success(n)
  {
    DecimalRoundTrip(n);
  }

  /** The worked example of the protocol: "1234" is 1234 mm. */
  lemma MeasurementExample()
    ensures InterpretMeasurement([0x31, 0x32, 0x33, 0x34]) == Success(1234)
  {
    var s: seq<byte> := [0x31, 0x32, 0x33, 0x34];
    assert s[..3] == [0x31, 0x32, 0x33];
    assert s[..3][..2] == [0x31, 0x32];
    assert s[..3][..2][..1] == [0x31];
    assert s[..3][..2][..1][..0] == [];
    assert DecimalValue([0x31]) == 1;
    assert DecimalValue([0x31, 0x32]) == 12;
    assert DecimalValue([0x31, 0x32, 0x33]) == 123;
  }
}
