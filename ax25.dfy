/** The AX.25 link header as the decoder reads it: six shifted-ASCII callsign
    bytes, an SSID octet, repeated until the first address whose extension bit
    is set, then a control byte and a protocol-id byte. */
module Ax25 {
  import opened Codec

  const CallsignLen: nat := 6
  const AddressLen: nat := 7

  // ---------------------------------------------------------------- callsign

  /** The characters Python's str.strip() removes, among the 7-bit ones a
      shifted callsign byte can become: TAB..CR, FS..US and space. */
  predicate IsSpace(c: char)
  {
    var n := c as int;
    n == 0x20 || 0x09 <= n <= 0x0D || 0x1C <= n <= 0x1F
  }

  predicate IsAscii(c: char)
  {
    (c as int) < 0x80
  }

  function ToUpper(c: char): char
  {
    if 'a' <= c <= 'z' then (c as int - 0x20) as char else c
  }

  function Upper(s: string): string
  {
    seq(|s|, i requires 0 <= i < |s| => ToUpper(s[i]))
  }

  /** s without its trailing whitespace. */
  function TrimEnd(s: string): string
  {
    if |s| > 0 && IsSpace(s[|s| - 1]) then TrimEnd(s[..|s| - 1]) else s
  }

  /** s without its leading whitespace. */
  function TrimStart(s: string): string
  {
    if |s| > 0 && IsSpace(s[0]) then TrimStart(s[1..]) else s
  }

  /** Python's str.strip() without arguments. */
  function Strip(s: string): string
  {
    TrimStart(TrimEnd(s))
  }

  /** TrimEnd keeps a prefix, removes only whitespace, and leaves no
      whitespace at the end. */
  lemma {:induction false} TrimEndSpec(s: string)
    ensures |TrimEnd(s)| <= |s| && TrimEnd(s) == s[..|TrimEnd(s)|]
    ensures |TrimEnd(s)| == 0 || !IsSpace(TrimEnd(s)[|TrimEnd(s)| - 1])
    ensures forall i :: |TrimEnd(s)| <= i < |s| ==> IsSpace(s[i])
  {
    if |s| > 0 && IsSpace(s[|s| - 1]) {
      var s' := s[..|s| - 1];
      TrimEndSpec(s');
      var t := TrimEnd(s');
      assert TrimEnd(s) == t;
      assert s'[..|t|] == s[..|t|];
      forall i | |t| <= i < |s| ensures IsSpace(s[i]) {
        if i < |s| - 1 {
          assert s[i] == s'[i];
        }
      }
    }
  }

  /** TrimStart keeps a suffix, removes only whitespace, and leaves no
      whitespace at the start. */
  lemma {:induction false} TrimStartSpec(s: string)
    ensures |TrimStart(s)| <= |s| && TrimStart(s) == s[|s| - |TrimStart(s)|..]
    ensures |TrimStart(s)| == 0 || !IsSpace(TrimStart(s)[0])
    ensures forall i :: 0 <= i < |s| - |TrimStart(s)| ==> IsSpace(s[i])
  {
    if |s| > 0 && IsSpace(s[0]) {
      var s' := s[1..];
      TrimStartSpec(s');
      var t := TrimStart(s');
      assert TrimStart(s) == t;
      assert s'[|s'| - |t|..] == s[|s| - |t|..];
      forall i | 0 <= i < |s| - |t| ensures IsSpace(s[i]) {
        if i > 0 {
          assert s[i] == s'[i - 1];
        }
      }
    }
  }

  /** The six characters of an encoded callsign: each byte shifted right by one. */
  function Unshift(b: seq<byte>): (t: string)
    requires |b| == CallsignLen
    ensures |t| == CallsignLen && forall i :: 0 <= i < CallsignLen ==> IsAscii(t[i])
  {
    seq(CallsignLen, i requires 0 <= i < CallsignLen => (b[i] / 2) as char)
  }

  /** CallsignAdapter decoding: shift each byte right, read as ASCII, strip. */
  function DecodeCallsign(b: seq<byte>): string
    requires |b| == CallsignLen
  {
    Strip(Unshift(b))
  }

  /** A decoded callsign has at most six ASCII characters and no surrounding
      whitespace. */
  lemma DecodeCallsignShape(b: seq<byte>)
    requires |b| == CallsignLen
    ensures |DecodeCallsign(b)| <= CallsignLen
    ensures forall i :: 0 <= i < |DecodeCallsign(b)| ==> IsAscii(DecodeCallsign(b)[i])
    ensures |DecodeCallsign(b)| > 0 ==> !IsSpace(DecodeCallsign(b)[0]) && !IsSpace(DecodeCallsign(b)[|DecodeCallsign(b)| - 1])
  {
    var u := Unshift(b);
    var t := TrimEnd(u);
    var r := TrimStart(t);
    TrimEndSpec(u);
    TrimStartSpec(t);
    assert forall i :: 0 <= i < |r| ==> r[i] == u[|t| - |r| + i];
    assert |r| > 0 ==> r[|r| - 1] == t[|t| - 1];
  }

  /** The six characters the encoder writes: upper-cased, space-padded, cut to six. */
  function Padded(s: string): (t: string)
    ensures |t| == CallsignLen
  {
    (Upper(s) + "      ")[..CallsignLen]
  }

  /** CallsignAdapter encoding: upper-case, pad or cut to six characters,
      encode as ASCII (failing on any other character), shift each byte left. */
  function EncodeCallsign(s: string): (r: Result<seq<byte>>)
    ensures r.Ok? <==> forall i :: 0 <= i < |s| && i < CallsignLen ==> IsAscii(s[i])
    ensures r.Err? ==> r.error == NotAscii
    ensures r.Ok? ==> |r.value| == CallsignLen
    ensures r.Ok? ==> forall i :: 0 <= i < CallsignLen ==> r.value[i] % 2 == 0
  {
    var t := Padded(s);
    assert forall i :: 0 <= i < |s| && i < CallsignLen ==> t[i] == ToUpper(s[i]);
    if forall i :: 0 <= i < CallsignLen ==> IsAscii(t[i]) then
      Ok(seq(CallsignLen, i requires 0 <= i < CallsignLen => (t[i] as int) * 2))
    else
      Err(NotAscii)
  }

  /** The bytes written: byte i is twice the upper-cased i-th character, or
      twice a space past the end of the callsign. */
  lemma EncodeCallsignBytes(s: string)
    requires EncodeCallsign(s).Ok?
    ensures forall i :: 0 <= i < CallsignLen ==>
              EncodeCallsign(s).value[i] == 2 * (if i < |s| then ToUpper(s[i]) else ' ') as int
  {
    var t := Padded(s);
    assert forall i :: 0 <= i < CallsignLen ==> t[i] == if i < |s| then ToUpper(s[i]) else ' ';
  }

  /** Only the first six characters are encoded: a longer callsign is cut. */
  lemma EncodeCallsignCut(s: string)
    requires |s| > CallsignLen
    ensures EncodeCallsign(s) == EncodeCallsign(s[..CallsignLen])
  {
    assert Padded(s) == Padded(s[..CallsignLen]);
  }

  lemma {:induction false} TrimEndPadding(u: string, w: string)
    requires |u| == 0 || !IsSpace(u[|u| - 1])
    requires forall i :: 0 <= i < |w| ==> IsSpace(w[i])
    ensures TrimEnd(u + w) == u
    decreases |w|
  {
    if |w| == 0 {
      assert u + w == u;
    } else {
      var w' := w[..|w| - 1];
      assert (u + w)[..|u + w| - 1] == u + w';
      TrimEndPadding(u, w');
    }
  }

  /** Callsign round trip: an ASCII callsign of at most six characters with no
      surrounding whitespace decodes from its encoding to its upper-cased form. */
  lemma CallsignRoundTrip(s: string)
    requires |s| <= CallsignLen
    requires forall i :: 0 <= i < |s| ==> IsAscii(s[i])
    requires |s| > 0 ==> !IsSpace(s[0]) && !IsSpace(s[|s| - 1])
    ensures EncodeCallsign(s).Ok?
    ensures DecodeCallsign(EncodeCallsign(s).value) == Upper(s)
  {
    var b := EncodeCallsign(s).value;
    var u := Upper(s);
    var w := Padded(s)[|s|..];
    assert Padded(s) == u + w;
    assert Unshift(b) == Padded(s);
    TrimEndPadding(u, w);
  }

  // --------------------------------------------------------------- SSID octet

  type Nibble = n: int | 0 <= n < 0x10

  /** The SSID octet, most significant bit first: ch:1, reserved:2, ssid:4,
      extension:1. The reserved bits are not kept when decoding. */
  datatype SsidOctet = SsidOctet(ch: bool, ssid: Nibble, extension: bool)

  /** Value the encoder writes into the reserved bits. */
  const ReservedDefault := 3

  function DecodeSsid(b: byte): (r: SsidOctet)
    ensures b == (if r.ch then 0x80 else 0) + (b / 0x20 % 4) * 0x20 + r.ssid * 2 + (if r.extension then 1 else 0)
  {
    SsidFields(b);
    SsidOctet(b >= 0x80, b / 2 % 0x10, b % 2 == 1)
  }

  /** A byte is the sum of its four SSID bit fields. */
  lemma SsidFields(b: byte)
    ensures b == (if b >= 0x80 then 0x80 else 0) + (b / 0x20 % 4) * 0x20 + (b / 2 % 0x10) * 2 + b % 2
  {
    var q := b / 2;
    var t := q / 0x10;
    assert b == 2 * q + b % 2;
    assert q == 0x10 * t + q % 0x10;
    assert t == b / 0x20;
    assert t == 4 * (t / 4) + t % 4;
    assert t / 4 == (if b >= 0x80 then 1 else 0);
  }

  function EncodeSsid(o: SsidOctet): (b: byte)
    ensures DecodeSsid(b) == o
    ensures b / 0x20 % 4 == ReservedDefault
  {
    (if o.ch then 0x80 else 0) + ReservedDefault * 0x20 + o.ssid * 2 + (if o.extension then 1 else 0)
  }

  /** A decoded SSID octet re-encodes to the same byte exactly when its
      reserved bits held the default value. */
  lemma SsidReencode(b: byte)
    ensures EncodeSsid(DecodeSsid(b)) == b <==> b / 0x20 % 4 == ReservedDefault
  {
    var o := DecodeSsid(b);
    var e := EncodeSsid(o);
    assert e == (if o.ch then 0x80 else 0) + (e / 0x20 % 4) * 0x20 + o.ssid * 2 + (if o.extension then 1 else 0);
  }

  // ----------------------------------------------------------- address chain

  datatype Address = Address(callsign: string, ssid: SsidOctet)

  function DecodeAddress(b: seq<byte>): Address
    requires |b| >= AddressLen
  {
    Address(DecodeCallsign(b[..CallsignLen]), DecodeSsid(b[CallsignLen]))
  }

  /** The k-th 7-byte address of s is present and has its extension bit set. */
  predicate EndsChainAt(s: seq<byte>, k: nat)
  {
    7 * k + AddressLen <= |s| && s[7 * k + CallsignLen] % 2 == 1
  }

  /** RepeatUntil(extension, address): addresses up to and including the
      first whose extension bit is set. */
  function ParseAddresses(s: seq<byte>): (r: Result<seq<Address>>)
    ensures r.Err? ==> r.error == Truncated
    ensures r.Ok? ==> 1 <= |r.value| && 7 * |r.value| <= |s|
    decreases |s|
  {
    if |s| < AddressLen then
      Err(Truncated)
    else
      var a := DecodeAddress(s);
      if a.ssid.extension then
        Ok([a])
      else
        match ParseAddresses(s[AddressLen..])
        case Err(e) => Err(e)
        case Ok(rest) => Ok([a] + rest)
  }

  /** The parsed chain ends with the first address whose extension bit is
      set: the last one has it and no earlier one does. */
  lemma {:induction false} ParseAddressesStops(s: seq<byte>)
    requires ParseAddresses(s).Ok?
    ensures EndsChainAt(s, |ParseAddresses(s).value| - 1)
    ensures forall k: nat :: k < |ParseAddresses(s).value| - 1 ==> !EndsChainAt(s, k)
    decreases |s|
  {
    var a := DecodeAddress(s);
    if a.ssid.extension {
      assert ParseAddresses(s).value == [a];
    } else {
      var s' := s[AddressLen..];
      ParseAddressesStops(s');
      var v := ParseAddresses(s).value;
      assert v == [a] + ParseAddresses(s').value;
      assert forall k: nat :: EndsChainAt(s', k) <==> EndsChainAt(s, k + 1);
      assert !EndsChainAt(s, 0);
      forall k: nat | k < |v| - 1 ensures !EndsChainAt(s, k) {
        if k > 0 {
          assert !EndsChainAt(s', k - 1);
        }
      }
    }
  }

  /** The k-th parsed address is the decoding of the k-th 7-byte group. */
  lemma {:induction false} ParseAddressesLayout(s: seq<byte>, k: nat)
    requires ParseAddresses(s).Ok? && k < |ParseAddresses(s).value|
    ensures 7 * k + AddressLen <= |s|
    ensures ParseAddresses(s).value[k] == DecodeAddress(s[7 * k..])
    decreases k
  {
    if k > 0 {
      var s' := s[AddressLen..];
      assert ParseAddresses(s).value == [DecodeAddress(s)] + ParseAddresses(s').value;
      ParseAddressesLayout(s', k - 1);
      assert s'[7 * (k - 1)..] == s[7 * k..];
    }
  }

  /** The address chain parses exactly when some address of the input, read
      in 7-byte steps from the start, carries the extension bit. */
  lemma {:induction false} ParseAddressesDefined(s: seq<byte>)
    ensures ParseAddresses(s).Ok? <==> exists k: nat :: EndsChainAt(s, k)
    decreases |s|
  {
    if |s| < AddressLen {
      assert forall k: nat :: !EndsChainAt(s, k);
    } else if DecodeAddress(s).ssid.extension {
      assert EndsChainAt(s, 0);
    } else {
      ParseAddressesDefined(s[AddressLen..]);
      assert forall k: nat :: EndsChainAt(s[AddressLen..], k) <==> EndsChainAt(s, k + 1);
      if exists k: nat :: EndsChainAt(s, k) {
        var k: nat :| EndsChainAt(s, k);
        assert k != 0;
        assert EndsChainAt(s[AddressLen..], k - 1);
      }
    }
  }

  // ------------------------------------------------------------------ header

  datatype Header = Header(addresses: seq<Address>, control: byte, pid: byte)

  function HeaderLen(h: Header): nat
  {
    7 * |h.addresses| + 2
  }

  /** ax25_header: the address chain, then the control and protocol-id bytes. */
  function ParseHeader(s: seq<byte>): (r: Result<Header>)
    ensures r.Ok? <==> ParseAddresses(s).Ok? && 7 * |ParseAddresses(s).value| + 2 <= |s|
    ensures r.Err? ==> r.error == Truncated
    ensures r.Ok? ==> r.value.addresses == ParseAddresses(s).value && HeaderLen(r.value) <= |s|
    ensures r.Ok? ==> r.value.control == s[HeaderLen(r.value) - 2] && r.value.pid == s[HeaderLen(r.value) - 1]
  {
    match ParseAddresses(s)
    case Err(e) => Err(e)
    case Ok(addrs) =>
      var n := 7 * |addrs|;
      if |s| < n + 2 then Err(Truncated) else Ok(Header(addrs, s[n], s[n + 1]))
  }

  /** The `ax25` structure: a header, then every remaining byte as info. */
  datatype Ax25Frame = Ax25Frame(header: Header, info: seq<byte>)

  function ParseAx25(s: seq<byte>): (r: Result<Ax25Frame>)
    ensures r.Ok? <==> ParseHeader(s).Ok?
    ensures r.Err? ==> r.error == Truncated
    ensures r.Ok? ==> r.value.header == ParseHeader(s).value && HeaderLen(r.value.header) + |r.value.info| == |s|
    ensures r.Ok? ==> r.value.info == s[HeaderLen(r.value.header)..]
  {
    match ParseHeader(s)
    case Err(e) => Err(e)
    case Ok(h) => Ok(Ax25Frame(h, s[HeaderLen(h)..]))
  }

  // ------------------------------------------------- building (the partner)

  function EncodeAddress(a: Address): (r: Result<seq<byte>>)
    ensures r.Ok? ==> |r.value| == AddressLen
  {
    match EncodeCallsign(a.callsign)
    case Err(e) => Err(e)
    case Ok(cs) => Ok(cs + [EncodeSsid(a.ssid)])
  }

  /** The number of addresses up to and including the first one whose
      extension bit is set, or 0 when none has it. */
  function ChainLength(addrs: seq<Address>): (n: nat)
    ensures n <= |addrs|
    ensures n > 0 ==> addrs[n - 1].ssid.extension && forall j :: 0 <= j < n - 1 ==> !addrs[j].ssid.extension
    ensures n == 0 ==> forall j :: 0 <= j < |addrs| ==> !addrs[j].ssid.extension
  {
    if |addrs| == 0 then 0
    else if addrs[0].ssid.extension then 1
    else
      var m := ChainLength(addrs[1..]);
      if m == 0 then 0 else m + 1
  }

  /** RepeatUntil building: encode addresses up to and including the first
      with the extension bit; fail if none has it. Each address is built
      before the stop test, so a bad callsign fails first. */
  function EncodeAddresses(addrs: seq<Address>): (r: Result<seq<byte>>)
    ensures r.Ok? ==> |r.value| % 7 == 0 && 0 < |r.value| <= 7 * |addrs|
  {
    if |addrs| == 0 then
      Err(Unterminated)
    else
      match EncodeAddress(addrs[0])
      case Err(e) => Err(e)
      case Ok(b) =>
        if addrs[0].ssid.extension then
          Ok(b)
        else
          match EncodeAddresses(addrs[1..])
          case Err(e) => Err(e)
          case Ok(rest) => Ok(b + rest)
  }

  /** Building stops at the first address with the extension bit: the
      result has 7 bytes for it and each address before it, and building
      fails as unterminated only when no address has the bit. */
  lemma {:induction false} EncodeAddressesLength(addrs: seq<Address>)
    ensures EncodeAddresses(addrs).Ok? ==>
              ChainLength(addrs) > 0 && |EncodeAddresses(addrs).value| == 7 * ChainLength(addrs)
    ensures EncodeAddresses(addrs).Err? && EncodeAddresses(addrs).error == Unterminated ==> ChainLength(addrs) == 0
    decreases |addrs|
  {
    if |addrs| > 0 && !addrs[0].ssid.extension {
      EncodeAddressesLength(addrs[1..]);
    }
  }

  /** Building succeeds exactly when some address has the extension bit and
      every address up to the first such one builds on its own. */
  lemma {:induction false} EncodeAddressesDefined(addrs: seq<Address>)
    ensures EncodeAddresses(addrs).Ok? <==>
              ChainLength(addrs) > 0 && forall j :: 0 <= j < ChainLength(addrs) ==> EncodeAddress(addrs[j]).Ok?
    decreases |addrs|
  {
    if |addrs| > 0 && EncodeAddress(addrs[0]).Ok? && !addrs[0].ssid.extension {
      var tail := addrs[1..];
      EncodeAddressesDefined(tail);
      assert forall j :: 0 < j < |addrs| ==> addrs[j] == tail[j - 1];
    }
  }

  /** When every address builds, the only way building fails is that no
      address has the extension bit. */
  lemma {:induction false} EncodeAddressesUnterminated(addrs: seq<Address>)
    requires forall j :: 0 <= j < |addrs| ==> EncodeAddress(addrs[j]).Ok?
    ensures EncodeAddresses(addrs).Err? ==> EncodeAddresses(addrs).error == Unterminated
    decreases |addrs|
  {
    if |addrs| > 0 && !addrs[0].ssid.extension {
      var tail := addrs[1..];
      assert forall j :: 0 <= j < |tail| ==> tail[j] == addrs[j + 1];
      EncodeAddressesUnterminated(tail);
    }
  }

  /** The j-th 7-byte group of a built chain is the j-th address built alone. */
  lemma {:induction false} EncodeAddressesLayout(addrs: seq<Address>, j: nat)
    requires EncodeAddresses(addrs).Ok? && j < ChainLength(addrs)
    ensures 7 * j + AddressLen <= |EncodeAddresses(addrs).value| && EncodeAddress(addrs[j]).Ok?
    ensures EncodeAddresses(addrs).value[7 * j..7 * j + AddressLen] == EncodeAddress(addrs[j]).value
    decreases j
  {
    var b := EncodeAddress(addrs[0]).value;
    if j == 0 {
      assert EncodeAddresses(addrs).value[..AddressLen] == b;
    } else {
      var tail := addrs[1..];
      assert !addrs[0].ssid.extension;
      assert j - 1 < ChainLength(tail);
      var t := EncodeAddresses(tail).value;
      assert EncodeAddresses(addrs).value == b + t;
      EncodeAddressesLayout(tail, j - 1);
      assert addrs[j] == tail[j - 1];
      SliceOfSuffix(b, t, 7 * j, 7 * j + AddressLen);
    }
  }

  /** A slice lying wholly in the second part of a concatenation. */
  lemma SliceOfSuffix(b: seq<byte>, t: seq<byte>, lo: nat, hi: nat)
    requires |b| <= lo <= hi <= |b| + |t|
    ensures (b + t)[lo..hi] == t[lo - |b|..hi - |b|]
  {
  }

  /** ax25_header building: the address chain, then control and pid. */
  function EncodeHeader(h: Header): (r: Result<seq<byte>>)
    ensures r.Ok? <==> EncodeAddresses(h.addresses).Ok?
    ensures r.Ok? ==> |r.value| == |EncodeAddresses(h.addresses).value| + 2
    ensures r.Ok? ==> r.value[|r.value| - 2] == h.control && r.value[|r.value| - 1] == h.pid
  {
    match EncodeAddresses(h.addresses)
    case Err(e) => Err(e)
    case Ok(b) => Ok(b + [h.control, h.pid])
  }

  /** A callsign that decodes back to itself: at most six ASCII characters,
      already upper case, no surrounding whitespace. */
  predicate CanonicalCallsign(c: string)
  {
    && |c| <= CallsignLen
    && (forall i :: 0 <= i < |c| ==> IsAscii(c[i]))
    && (|c| > 0 ==> !IsSpace(c[0]) && !IsSpace(c[|c| - 1]))
    && Upper(c) == c
  }

  /** An address chain as the decoder produces it: non-empty, every callsign
      canonical, and the extension bit set on the last entry only. */
  predicate WellFormedChain(addrs: seq<Address>)
    decreases |addrs|
  {
    && |addrs| >= 1
    && CanonicalCallsign(addrs[0].callsign)
    && (if |addrs| == 1 then addrs[0].ssid.extension
        else !addrs[0].ssid.extension && WellFormedChain(addrs[1..]))
  }

  lemma AddressRoundTrip(a: Address, rest: seq<byte>)
    requires CanonicalCallsign(a.callsign)
    ensures EncodeAddress(a).Ok?
    ensures |EncodeAddress(a).value + rest| >= AddressLen
    ensures DecodeAddress(EncodeAddress(a).value + rest) == a
  {
    CallsignRoundTrip(a.callsign);
    var b := EncodeAddress(a).value + rest;
    assert b[..CallsignLen] == EncodeCallsign(a.callsign).value;
  }

  /** Address-chain round trip: a well-formed chain encodes, and parsing its
      encoding followed by any bytes gives back the chain. */
  lemma {:induction false} AddressesRoundTrip(addrs: seq<Address>, rest: seq<byte>)
    requires WellFormedChain(addrs)
    ensures EncodeAddresses(addrs).Ok? && |EncodeAddresses(addrs).value| == 7 * |addrs|
    ensures ParseAddresses(EncodeAddresses(addrs).value + rest) == Ok(addrs)
    decreases |addrs|
  {
    if |addrs| == 1 {
      assert addrs == [addrs[0]];
      LastAddressRoundTrip(addrs[0], rest);
    } else {
      AddressesRoundTrip(addrs[1..], rest);
      assert addrs == [addrs[0]] + addrs[1..];
      ChainStep(addrs[0], addrs[1..], rest);
    }
  }

  /** The base case of AddressesRoundTrip: one canonical address with the
      extension bit set. */
  lemma LastAddressRoundTrip(a: Address, rest: seq<byte>)
    requires CanonicalCallsign(a.callsign) && a.ssid.extension
    ensures EncodeAddresses([a]).Ok? && |EncodeAddresses([a]).value| == 7
    ensures ParseAddresses(EncodeAddresses([a]).value + rest) == Ok([a])
  {
    AddressRoundTrip(a, rest);
    assert EncodeAddresses([a]) == EncodeAddress(a);
  }

  /** The inductive step of AddressesRoundTrip: prefixing an encodable chain
      that parses back with one canonical address without the extension bit. */
  lemma ChainStep(a: Address, tail: seq<Address>, rest: seq<byte>)
    requires CanonicalCallsign(a.callsign) && !a.ssid.extension
    requires EncodeAddresses(tail).Ok? && |EncodeAddresses(tail).value| == 7 * |tail|
    requires ParseAddresses(EncodeAddresses(tail).value + rest) == Ok(tail)
    ensures EncodeAddresses([a] + tail).Ok? && |EncodeAddresses([a] + tail).value| == 7 * (|tail| + 1)
    ensures ParseAddresses(EncodeAddresses([a] + tail).value + rest) == Ok([a] + tail)
  {
    var t := EncodeAddresses(tail).value;
    AddressRoundTrip(a, t + rest);
    var b := EncodeAddress(a).value;
    assert ([a] + tail)[1..] == tail;
    assert EncodeAddresses([a] + tail) == Ok(b + t);
    assert (b + t) + rest == b + (t + rest);
    ParseAddressesCons(b, t + rest, a, tail);
  }

  /** One step of the chain: an address without the extension bit followed
      by a chain that parses. */
  lemma ParseAddressesCons(b: seq<byte>, more: seq<byte>, a: Address, tail: seq<Address>)
    requires |b| == AddressLen && DecodeAddress(b + more) == a && !a.ssid.extension
    requires ParseAddresses(more) == Ok(tail)
    ensures ParseAddresses(b + more) == Ok([a] + tail)
  {
    assert (b + more)[AddressLen..] == more;
  }

  /** Header round trip: a header with a well-formed address chain encodes
      to HeaderLen bytes, and parsing them (with anything after) gives it back. */
  lemma HeaderRoundTrip(h: Header, rest: seq<byte>)
    requires WellFormedChain(h.addresses)
    ensures EncodeHeader(h).Ok? && |EncodeHeader(h).value| == HeaderLen(h)
    ensures ParseHeader(EncodeHeader(h).value + rest) == Ok(h)
  {
    var tail := [h.control, h.pid] + rest;
    AddressesRoundTrip(h.addresses, tail);
    var b := EncodeAddresses(h.addresses).value;
    var s := EncodeHeader(h).value + rest;
    assert s == b + tail;
    var n := 7 * |h.addresses|;
    assert s[n] == h.control && s[n + 1] == h.pid;
  }

  /** A frame built from a well-formed header and any info bytes parses back
      to both. */
  lemma Ax25RoundTrip(h: Header, info: seq<byte>)
    requires WellFormedChain(h.addresses)
    ensures EncodeHeader(h).Ok?
    ensures ParseAx25(EncodeHeader(h).value + info) == Ok(Ax25Frame(h, info))
  {
    HeaderRoundTrip(h, info);
    var s := EncodeHeader(h).value + info;
    assert s[HeaderLen(h)..] == info;
  }
}
