/** The battery-status HID reports: the 17-byte request and the decoding
    of the response. */
module Report {
  import opened Wrappers

  type Byte = x: int | 0 <= x < 256

  const ReportLength: nat := 17
  /** Byte 0 of the request: the report id. */
  const ReportId: Byte := 8
  /** Byte 1 of the request: the battery query. */
  const BatteryQuery: Byte := 4
  /** Byte 16 of the request. */
  const Trailer: Byte := 73

  /** The exact layout of a battery request. */
  ghost predicate IsBatteryRequest(s: seq<Byte>) {
    && |s| == ReportLength
    && s[0] == ReportId && s[1] == BatteryQuery && s[16] == Trailer
    && forall i :: 2 <= i < 16 ==> s[i] == 0
  }

  /** Builds the request in a fresh zero-filled buffer, setting three bytes. */
  method BuildRequest() returns (report: array<Byte>)
    ensures fresh(report)
    ensures IsBatteryRequest(report[..])
  {
    report := new Byte[ReportLength](_ => 0);
    report[0] := ReportId;
    report[1] := BatteryQuery;
    report[16] := Trailer;
  }

  /** The layout fixes every byte: there is exactly one battery request. */
  lemma RequestIsUnique(a: seq<Byte>, b: seq<Byte>)
    requires IsBatteryRequest(a) && IsBatteryRequest(b)
    ensures a == b
  {
    forall i | 0 <= i < |a| ensures a[i] == b[i] {
      if 2 <= i < 16 {
        assert a[i] == 0 && b[i] == 0;
      }
    }
  }

  /** What one response carries: byte 6, the charge in percent, and byte 7,
      the raw wired flag. */
  datatype Reading = Reading(battery: Byte, wired: Byte)

  /** Python truthiness of the wired flag. */
  predicate IsWired(r: Reading) {
    r.wired != 0
  }

  /** A response too short to hold bytes 6 and 7. */
  datatype DecodeError = ShortResponse(length: nat)

  function Decode(res: seq<Byte>): (r: Result<Reading, DecodeError>)
    ensures r.Success? <==> |res| > 7
    ensures r.Success? ==> r.value.battery == res[6] && r.value.wired == res[7]
    ensures r.Failure? ==> r.error == ShortResponse(|res|)
  {
    if |res| > 7 then Success(Reading(res[6], res[7])) else Failure(ShortResponse(|res|))
  }

  /** A device response carrying `r`: `frame` with bytes 6 and 7 replaced. */
  function ResponseFor(r: Reading, frame: seq<Byte>): (res: seq<Byte>)
    requires |frame| == ReportLength
  {
    frame[..6] + [r.battery, r.wired] + frame[8..]
  }

  /** Decoding undoes encoding, and leaves the other bytes of the frame alone. */
  lemma DecodeResponseFor(r: Reading, frame: seq<Byte>)
    requires |frame| == ReportLength
    ensures |ResponseFor(r, frame)| == ReportLength
    ensures Decode(ResponseFor(r, frame)) == Success(r)
    ensures forall i :: 0 <= i < ReportLength && i != 6 && i != 7 ==> ResponseFor(r, frame)[i] == frame[i]
  {
    var res := ResponseFor(r, frame);
    assert res[6] == r.battery && res[7] == r.wired;
  }

  /** Only bytes 6 and 7 of a long-enough response matter. */
  lemma DecodeIgnoresOtherBytes(a: seq<Byte>, b: seq<Byte>)
    requires |a| > 7 && |b| > 7
    requires a[6] == b[6] && a[7] == b[7]
    ensures Decode(a) == Decode(b)
  {
  }
}
