/** The GEOSCAN telemetry record and the `geoscan` wrapper that decides, from
    the AX.25 header, whether a buffer carries one. */
module Telemetry {
  import opened Codec
  import Ax25

  // --------------------------------------------------------------- SubAdapter

  /** SubAdapter decoding: the field holds the value plus a fixed bias. */
  function Unbias(raw: int, bias: int): int
  {
    raw - bias
  }

  /** SubAdapter encoding. */
  function Rebias(v: int, bias: int): (raw: int)
    ensures Unbias(raw, bias) == v
  {
    v + bias
  }

  const NresOscBias := 7476
  const NresCommUBias := 1505
  const RssiBias := 99

  // ------------------------------------------------------- telemetry record

  /** Bytes before the greedy padding. */
  const FixedLen: nat := 26

  /** geoscan_frame. The current and voltage fields keep their raw 16-bit
      readings, the time its raw 32-bit count of seconds. */
  datatype TelemetryRecord = TelemetryRecord(
    time: u32,
    iab: u16, isp: u16, uabPer: u16, uabSum: u16,
    txPlus: byte, txMinus: byte, tyPlus: byte, tyMinus: byte,
    tzPlus: byte, tzMinus: byte, tab1: byte, tab2: byte, cpuLoad: byte,
    nresOsc: int, nresCommU: int, rssi: int,
    pad: seq<byte>)

  /** geoscan_frame.parse: little-endian fields in order, then every
      remaining byte as padding. */
  function DecodeTelemetry(b: seq<byte>): (r: Result<TelemetryRecord>)
    ensures r.Ok? <==> |b| >= FixedLen
    ensures r.Err? ==> r.error == Truncated
    ensures r.Ok? ==> r.value.nresOsc == U16le(b, 21) - NresOscBias
    ensures r.Ok? ==> r.value.nresCommU == U16le(b, 23) - NresCommUBias
    ensures r.Ok? ==> r.value.rssi == b[25] - RssiBias
    ensures r.Ok? ==> r.value.pad == b[FixedLen..]
  {
    if |b| < FixedLen then
      Err(Truncated)
    else
      Ok(TelemetryRecord(
        U32le(b, 0),
        U16le(b, 4), U16le(b, 6), U16le(b, 8), U16le(b, 10),
        b[12], b[13], b[14], b[15], b[16], b[17], b[18], b[19], b[20],
        Unbias(U16le(b, 21), NresOscBias),
        Unbias(U16le(b, 23), NresCommUBias),
        Unbias(b[25], RssiBias),
        b[FixedLen..]))
  }

  /** The biased fields fit their raw widths once the bias is added back. */
  predicate Encodable(t: TelemetryRecord)
  {
    && 0 <= Rebias(t.nresOsc, NresOscBias) < 0x1_0000
    && 0 <= Rebias(t.nresCommU, NresCommUBias) < 0x1_0000
    && 0 <= Rebias(t.rssi, RssiBias) < 0x100
  }

  /** geoscan_frame.build: fails when a biased value does not fit its field. */
  function EncodeTelemetry(t: TelemetryRecord): (r: Result<seq<byte>>)
    ensures r.Ok? <==> Encodable(t)
    ensures r.Err? ==> r.error == OutOfRange
    ensures r.Ok? ==> |r.value| == FixedLen + |t.pad|
  {
    if !Encodable(t) then
      Err(OutOfRange)
    else
      Ok(EncodeU32le(t.time)
         + EncodeU16le(t.iab) + EncodeU16le(t.isp) + EncodeU16le(t.uabPer) + EncodeU16le(t.uabSum)
         + [t.txPlus, t.txMinus, t.tyPlus, t.tyMinus, t.tzPlus, t.tzMinus, t.tab1, t.tab2, t.cpuLoad]
         + EncodeU16le(Rebias(t.nresOsc, NresOscBias))
         + EncodeU16le(Rebias(t.nresCommU, NresCommUBias))
         + [Rebias(t.rssi, RssiBias)]
         + t.pad)
  }

  /** Every buffer of at least 26 bytes decodes, and building the decoded
      record gives the buffer back. */
  lemma TelemetryReencode(b: seq<byte>)
    requires |b| >= FixedLen
    ensures DecodeTelemetry(b).Ok?
    ensures EncodeTelemetry(DecodeTelemetry(b).value) == Ok(b)
  {
    var t := DecodeTelemetry(b).value;
    U32leReencode(b, 0);
    U16leReencode(b, 4);
    U16leReencode(b, 6);
    U16leReencode(b, 8);
    U16leReencode(b, 10);
    U16leReencode(b, 21);
    U16leReencode(b, 23);
    assert Rebias(t.nresOsc, NresOscBias) == U16le(b, 21);
    assert Rebias(t.nresCommU, NresCommUBias) == U16le(b, 23);
    assert Rebias(t.rssi, RssiBias) == b[25];
    assert Encodable(t);
    assert [t.txPlus, t.txMinus, t.tyPlus, t.tyMinus, t.tzPlus, t.tzMinus, t.tab1, t.tab2, t.cpuLoad] == b[12..21];
    assert b == b[0..4] + b[4..6] + b[6..8] + b[8..10] + b[10..12] + b[12..21] + b[21..23] + b[23..25] + [b[25]] + b[FixedLen..];
  }

  /** An encodable record survives building and parsing unchanged. */
  lemma TelemetryRoundTrip(t: TelemetryRecord)
    requires Encodable(t)
    ensures DecodeTelemetry(EncodeTelemetry(t).value) == Ok(t)
  {
  }

  // --------------------------------------------------- the geoscan wrapper

  const BeaconCallsign := "BEACON"
  /** AX.25 protocol id "no layer 3". */
  const PidNoLayer3 := 0xF0

  /** The parsed `geoscan` structure: the header when the first callsign is
      BEACON, the telemetry record when that header has protocol id F0. */
  datatype GeoscanPacket = GeoscanPacket(ax25: Option<Ax25.Header>, geoscan: Option<TelemetryRecord>)

  /** The header parses and its first address is BEACON. */
  predicate IsBeacon(s: seq<byte>)
  {
    var h := Ax25.ParseHeader(s);
    h.Ok? && h.value.addresses[0].callsign == BeaconCallsign
  }

  /** geoscan.parse: peek the header (a failed peek reads as absent), keep it
      only for BEACON, and read the telemetry after it only when its protocol
      id is F0. The telemetry read is the one step that can fail. */
  function ParseGeoscan(s: seq<byte>): (r: Result<GeoscanPacket>)
  {
    var peek := Ax25.ParseHeader(s);
    if peek.Ok? && peek.value.addresses[0].callsign == BeaconCallsign then
      var h := peek.value;
      if h.pid == PidNoLayer3 then
        match DecodeTelemetry(s[Ax25.HeaderLen(h)..])
        case Err(e) => Err(e)
        case Ok(t) => Ok(GeoscanPacket(Some(h), Some(t)))
      else
        Ok(GeoscanPacket(Some(h), None))
    else
      Ok(GeoscanPacket(None, None))
  }

  /** Telemetry gating: the packet holds a header exactly for a BEACON
      header, and a telemetry record exactly when that header also has
      protocol id F0 and at least 26 bytes follow it; a BEACON/F0 header
      with fewer bytes after it makes the parse fail, nothing else does. */
  lemma GeoscanGating(s: seq<byte>)
    ensures ParseGeoscan(s).Ok? ==> (ParseGeoscan(s).value.ax25.Some? <==> IsBeacon(s))
    ensures ParseGeoscan(s).Ok? && ParseGeoscan(s).value.geoscan.Some? <==>
              IsBeacon(s) && Ax25.ParseHeader(s).value.pid == PidNoLayer3
              && |s| >= Ax25.HeaderLen(Ax25.ParseHeader(s).value) + FixedLen
    ensures ParseGeoscan(s).Err? <==>
              IsBeacon(s) && Ax25.ParseHeader(s).value.pid == PidNoLayer3
              && |s| < Ax25.HeaderLen(Ax25.ParseHeader(s).value) + FixedLen
  {
  }

  /** A beacon built from a well-formed header whose first callsign is
      BEACON, protocol id F0, and an encodable record parses back to both. */
  lemma BeaconRoundTrip(h: Ax25.Header, t: TelemetryRecord)
    requires Ax25.WellFormedChain(h.addresses) && h.addresses[0].callsign == BeaconCallsign
    requires h.pid == PidNoLayer3 && Encodable(t)
    ensures Ax25.EncodeHeader(h).Ok? && EncodeTelemetry(t).Ok?
    ensures ParseGeoscan(Ax25.EncodeHeader(h).value + EncodeTelemetry(t).value) == Ok(GeoscanPacket(Some(h), Some(t)))
  {
    var tb := EncodeTelemetry(t).value;
    Ax25.HeaderRoundTrip(h, tb);
    TelemetryRoundTrip(t);
    var s := Ax25.EncodeHeader(h).value + tb;
    assert s[Ax25.HeaderLen(h)..] == tb;
  }
}
