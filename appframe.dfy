/** The application frame that carries image fragments: marker (u16le) at
    byte 0, declared length (u8) at 2, message type (u16le) at 3, offset
    (u16le) at 5, subsystem number (u8) at 7, then exactly `dlen - 6` payload
    bytes from byte 8. Bytes after the payload are ignored. */
module AppFrame {
  import opened Codec

  /** Bytes before the payload. */
  const HeaderSize: nat := 8
  /** The declared length counts the payload plus this many header bytes. */
  const DlenBias: nat := 6

  datatype Frame = Frame(marker: u16, dlen: byte, mtype: u16, offset: u16, subsystem: byte, data: seq<byte>)

  /** The payload length declared by the byte at position 2 (may be negative). */
  function DeclaredPayload(s: seq<byte>): int
    requires |s| > 2
  {
    s[2] as int - DlenBias
  }

  /** _frame.parse */
  function ParseFrame(s: seq<byte>): (r: Result<Frame>)
    ensures r.Ok? <==> |s| >= HeaderSize && 0 <= DeclaredPayload(s) && HeaderSize + DeclaredPayload(s) <= |s|
    ensures r.Err? ==> (r.error == LengthUnderflow <==> |s| >= HeaderSize && DeclaredPayload(s) < 0)
    ensures r.Err? ==> (r.error == Truncated <==> !(|s| >= HeaderSize && DeclaredPayload(s) < 0))
    ensures r.Ok? ==> |r.value.data| == r.value.dlen - DlenBias && HeaderSize + |r.value.data| <= |s|
    ensures r.Ok? ==> s[..HeaderSize + |r.value.data|] == EncodeFrame(r.value).value
  {
    if |s| < HeaderSize then
      Err(Truncated)
    else
      var n := DeclaredPayload(s);
      if n < 0 then
        Err(LengthUnderflow)
      else if |s| < HeaderSize + n then
        Err(Truncated)
      else
        var f := Frame(U16le(s, 0), s[2], U16le(s, 3), U16le(s, 5), s[7], s[HeaderSize..HeaderSize + n]);
        assert EncodeFrame(f).value == s[..HeaderSize + n] by {
          U16leReencode(s, 0);
          U16leReencode(s, 3);
          U16leReencode(s, 5);
          assert s[..HeaderSize + n] == s[0..2] + [s[2]] + s[3..5] + s[5..7] + [s[7]] + s[HeaderSize..HeaderSize + n];
        }
        Ok(f)
  }

  /** _frame.build: fails when the payload does not have the declared length. */
  function EncodeFrame(f: Frame): (r: Result<seq<byte>>)
    ensures r.Ok? <==> |f.data| == f.dlen - DlenBias
    ensures r.Err? ==> (r.error == LengthUnderflow <==> f.dlen < DlenBias)
    ensures r.Ok? ==> |r.value| == HeaderSize + |f.data|
  {
    if f.dlen < DlenBias then
      Err(LengthUnderflow)
    else if |f.data| != f.dlen - DlenBias then
      Err(LengthMismatch)
    else
      Ok(EncodeU16le(f.marker) + [f.dlen] + EncodeU16le(f.mtype) + EncodeU16le(f.offset) + [f.subsystem] + f.data)
  }

  /** Frame round trip: a frame whose payload has its declared length parses
      back from its encoding, whatever bytes follow it. */
  lemma FrameRoundTrip(f: Frame, trailing: seq<byte>)
    requires |f.data| == f.dlen - DlenBias
    ensures ParseFrame(EncodeFrame(f).value + trailing) == Ok(f)
  {
  }

  /** Bytes after the declared payload never change the parse. */
  lemma TrailingIgnored(s: seq<byte>, trailing: seq<byte>)
    requires ParseFrame(s).Ok?
    ensures ParseFrame(s + trailing) == ParseFrame(s)
  {
    var f := ParseFrame(s).value;
    var n := HeaderSize + |f.data|;
    assert s == s[..n] + s[n..];
    FrameRoundTrip(f, s[n..]);
    FrameRoundTrip(f, s[n..] + trailing);
    assert s + trailing == s[..n] + (s[n..] + trailing);
  }
}
