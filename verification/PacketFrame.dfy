/**
 The over-the-air packet framing: rebuilding a packet's bytes from its log entry
 is the exact inverse of parsing them, and the figures published with it (its
 length, the truncated hex, the hop hashes) are those of the real packet.
 */
module PacketFrame {
  import opened Bytes
  import opened Wrappers

  // ----- hexadecimal

  const DIGITS := "0123456789abcdef"

  function HexDigit(n: int): char
    requires 0 <= n < 16
  {
    DIGITS[n]
  }

  function DigitValue(c: char): Option<int> {
    if '0' <= c <= '9' then Some(c as int - '0' as int)
    else if 'a' <= c <= 'f' then Some(c as int - 'a' as int + 10)
    else None
  }

  function HexEncode(bytes: seq<byte>): (s: string)
    ensures |s| == 2 * |bytes|
  {
    if bytes == [] then ""
    else [HexDigit(bytes[0] / 16), HexDigit(bytes[0] % 16)] + HexEncode(bytes[1..])
  }

  /** The inverse of `HexEncode`; nothing for an odd length or another character. */
  function HexDecode(s: string): Option<seq<byte>> {
    if s == "" then Some([])
    else if |s| < 2 then None
    else
      match (DigitValue(s[0]), DigitValue(s[1]), HexDecode(s[2..]))
      case (Some(hi), Some(lo), Some(rest)) => Some([hi * 16 + lo] + rest)
      case _ => None
  }

  lemma DigitRoundTrip(n: int)
    requires 0 <= n < 16
    ensures DigitValue(HexDigit(n)) == Some(n)
  {
  }

  lemma {:induction false} HexRoundTrip(bytes: seq<byte>)
    ensures HexDecode(HexEncode(bytes)) == Some(bytes)
  {
    if bytes != [] {
      var b, s := bytes[0], HexEncode(bytes);
      DigitRoundTrip(b / 16);
      DigitRoundTrip(b % 16);
      HexRoundTrip(bytes[1..]);
      assert s[2..] == HexEncode(bytes[1..]);
      assert b / 16 * 16 + b % 16 == b;
      assert bytes == [b] + bytes[1..];
    }
  }

  /** Every byte becomes two lower-case digits, the higher one first. */
  lemma {:induction false} HexAt(bytes: seq<byte>, i: nat)
    requires i < |bytes|
    ensures HexEncode(bytes)[2 * i] == "0123456789abcdef"[bytes[i] / 16]
    ensures HexEncode(bytes)[2 * i + 1] == "0123456789abcdef"[bytes[i] % 16]
  {
    if i > 0 {
      HexAt(bytes[1..], i - 1);
    }
  }

  lemma {:induction false} HexConcat(a: seq<byte>, b: seq<byte>)
    ensures HexEncode(a + b) == HexEncode(a) + HexEncode(b)
  {
    if a == [] {
      assert a + b == b;
    } else {
      assert (a + b)[1..] == a[1..] + b;
      HexConcat(a[1..], b);
    }
  }

  // ----- frames

  datatype Header = Header(
    route: byte, kind: byte, version: byte, hops: byte, hashSize: byte,
    path: seq<byte>, transportCode: Option<seq<byte>>)

  datatype Frame = Frame(header: Header, payload: seq<byte>)

  const TRANSPORT_FLOOD: byte := 0
  const TRANSPORT_DIRECT: byte := 3

  predicate IsTransportRoute(route: byte) {
    route == TRANSPORT_FLOOD || route == TRANSPORT_DIRECT
  }

  /** Two bits of route, four of payload type, two of version. The three masked
      fields share no bit, so the bitwise or is their sum; shifting an oversized
      version left by six drops what leaves the byte. */
  function PackHeader(version: byte, kind: byte, route: byte): byte {
    (version * 64) % 256 + (kind % 16) * 4 + route % 4
  }

  /** The hash size less one (never below zero) in the top two bits, then the hops. */
  function PackPath(hashSize: byte, hops: byte): byte {
    ((if hashSize == 0 then 0 else hashSize - 1) * 64) % 256 + hops % 64
  }

  function HeaderByte(h: Header): byte {
    PackHeader(h.version, h.kind, h.route)
  }

  function PathByte(h: Header): byte {
    PackPath(h.hashSize, h.hops)
  }

  function Serialize(f: Frame): seq<byte> {
    var h := f.header;
    [HeaderByte(h)] + (if h.transportCode.Some? then h.transportCode.value else [])
    + [PathByte(h)] + h.path + f.payload
  }

  function ParsePath(route: byte, kind: byte, version: byte, code: Option<seq<byte>>, rest: seq<byte>): Option<Frame> {
    if rest == [] then None
    else
      var hashSize, hops := rest[0] / 64 + 1, rest[0] % 64;
      var pathEnd := 1 + hops * hashSize;
      if |rest| < pathEnd then None
      else Some(Frame(Header(route, kind, version, hops, hashSize, rest[1..pathEnd], code), rest[pathEnd..]))
  }

  /** The parser the reconstruction is documented to invert; nothing when the
      bytes end too soon. */
  function Parse(bytes: seq<byte>): Option<Frame> {
    if bytes == [] then None
    else
      var b, rest := bytes[0], bytes[1..];
      var route, kind, version := b % 4, (b / 4) % 16, b / 64;
      if IsTransportRoute(route) then
        if |rest| < 4 then None else ParsePath(route, kind, version, Some(rest[..4]), rest[4..])
      else ParsePath(route, kind, version, None, rest)
  }

  /** The headers a packet can carry. */
  predicate InRange(h: Header) {
    && h.route < 4 && h.kind < 16 && h.version < 4 && h.hops < 64 && 1 <= h.hashSize <= 4
    && |h.path| == h.hops * h.hashSize
    && (if IsTransportRoute(h.route) then h.transportCode.Some? && |h.transportCode.value| == 4
        else h.transportCode.None?)
  }

  lemma PackBits(version: int, kind: int, route: int)
    requires 0 <= version < 4 && 0 <= kind < 16 && 0 <= route < 4
    ensures var b := version * 64 + kind * 4 + route;
            0 <= b < 256 && b % 4 == route && b / 4 == version * 16 + kind && b / 64 == version
  {
  }

  lemma HeaderBits(h: Header)
    requires h.route < 4 && h.kind < 16 && h.version < 4
    ensures var b := HeaderByte(h); b % 4 == h.route && (b / 4) % 16 == h.kind && b / 64 == h.version
  {
    PackBits(h.version, h.kind, h.route);
    assert HeaderByte(h) == h.version * 64 + h.kind * 4 + h.route;
  }

  lemma UnpackBits(b: byte)
    ensures var route, kind, version := b % 4, (b / 4) % 16, b / 64;
            (version * 64) % 256 + (kind % 16) * 4 + route % 4 == b
  {
  }

  lemma PathBits(h: Header)
    requires h.hops < 64 && 1 <= h.hashSize <= 4
    ensures var b := PathByte(h); b % 64 == h.hops && b / 64 + 1 == h.hashSize
  {
    if h.hashSize == 1 {
      assert PathByte(h) == h.hops;
    } else if h.hashSize == 2 {
      assert PathByte(h) == 64 + h.hops;
    } else if h.hashSize == 3 {
      assert PathByte(h) == 128 + h.hops;
    } else {
      assert PathByte(h) == 192 + h.hops;
    }
  }

  lemma ParsePathOf(h: Header, payload: seq<byte>)
    requires h.hops < 64 && 1 <= h.hashSize <= 4 && |h.path| == h.hops * h.hashSize
    ensures ParsePath(h.route, h.kind, h.version, h.transportCode, [PathByte(h)] + h.path + payload)
         == Some(Frame(h, payload))
  {
    PathBits(h);
    var rest := [PathByte(h)] + h.path + payload;
    assert rest[1..1 + |h.path|] == h.path && rest[1 + |h.path|..] == payload;
  }

  lemma ParseSerialized(f: Frame)
    requires InRange(f.header)
    ensures Parse(Serialize(f)) == Some(f)
  {
    var h := f.header;
    HeaderBits(h);
    ParsePathOf(h, f.payload);
    var bytes, tail := Serialize(f), [PathByte(h)] + h.path + f.payload;
    if h.transportCode.Some? {
      assert bytes[1..] == h.transportCode.value + tail;
      assert bytes[1..][..4] == h.transportCode.value && bytes[1..][4..] == tail;
    } else {
      assert bytes[1..] == tail;
    }
  }

  lemma ParsedPath(route: byte, kind: byte, version: byte, code: Option<seq<byte>>, rest: seq<byte>)
    requires ParsePath(route, kind, version, code, rest).Some?
    ensures var f := ParsePath(route, kind, version, code, rest).value;
            && f.header.hops < 64 && 1 <= f.header.hashSize <= 4
            && |f.header.path| == f.header.hops * f.header.hashSize
            && rest == [PathByte(f.header)] + f.header.path + f.payload
            && f.header.route == route && f.header.kind == kind && f.header.version == version
            && f.header.transportCode == code
  {
    var f := ParsePath(route, kind, version, code, rest).value;
    assert PathByte(f.header) == rest[0];
  }

  /** Whatever bytes parse are rebuilt exactly, and their header is in range. */
  lemma SerializeParsed(bytes: seq<byte>)
    requires Parse(bytes).Some?
    ensures var f := Parse(bytes).value; Serialize(f) == bytes && InRange(f.header)
    ensures Parse(bytes).value.header.transportCode.Some? <==> bytes[0] % 4 == 0 || bytes[0] % 4 == 3
  {
    var b, rest, f := bytes[0], bytes[1..], Parse(bytes).value;
    assert bytes == [b] + rest;
    var route, kind, version := b % 4, (b / 4) % 16, b / 64;
    if IsTransportRoute(route) {
      ParsedPath(route, kind, version, Some(rest[..4]), rest[4..]);
      assert rest == rest[..4] + rest[4..];
    } else {
      ParsedPath(route, kind, version, None, rest);
    }
    UnpackBits(b);
    SerializeParts(f, b, rest);
  }

  lemma SerializeParts(f: Frame, b: byte, rest: seq<byte>)
    requires HeaderByte(f.header) == b
    requires rest == (if f.header.transportCode.Some? then f.header.transportCode.value else [])
                     + ([PathByte(f.header)] + f.header.path + f.payload)
    ensures Serialize(f) == [b] + rest
  {
  }

  /** Rebuilding a frame and parsing it again gives it back exactly when every
      header field fits its bits and the path and transport code fit the header. */
  lemma FrameRoundTrip(f: Frame)
    ensures Parse(Serialize(f)) == Some(f) <==> InRange(f.header)
  {
    if InRange(f.header) {
      ParseSerialized(f);
    } else if Parse(Serialize(f)) == Some(f) {
      SerializeParsed(Serialize(f));
    }
  }

  lemma Shifted(v: nat)
    ensures (v * 64) % 256 == v % 4 * 64
  {
    assert v * 64 == 256 * (v / 4) + v % 4 * 64;
  }

  lemma PackedBits(h: Header)
    ensures HeaderByte(h) % 4 == h.route % 4 && HeaderByte(h) / 4 % 16 == h.kind % 16
    ensures HeaderByte(h) / 64 == h.version % 4
    ensures PathByte(h) % 64 == h.hops % 64
    ensures PathByte(h) / 64 == if h.hashSize == 0 then 0 else (h.hashSize - 1) % 4
  {
    PackBits(h.version % 4, h.kind % 16, h.route % 4);
    Shifted(h.version);
    Shifted(if h.hashSize == 0 then 0 else h.hashSize - 1);
  }

  /** Where each field sits in a packet, oversized values cut to their bits: route,
      type and version from the low end of the first byte, the transport code
      behind it, hop count and hash size less one in the path byte, then the path
      and the payload. */
  lemma FrameLayout(f: Frame)
    ensures var h := f.header; var bytes := Serialize(f);
            var p := 1 + if h.transportCode.Some? then |h.transportCode.value| else 0;
            && |bytes| == p + 1 + |h.path| + |f.payload|
            && bytes[0] % 4 == h.route % 4 && bytes[0] / 4 % 16 == h.kind % 16 && bytes[0] / 64 == h.version % 4
            && (h.transportCode.Some? ==> bytes[1..p] == h.transportCode.value)
            && bytes[p] % 64 == h.hops % 64
            && bytes[p] / 64 == (if h.hashSize == 0 then 0 else (h.hashSize - 1) % 4)
            && bytes[p + 1..] == h.path + f.payload
  {
    PackedBits(f.header);
    var bytes := Serialize(f);
    assert bytes[0] == HeaderByte(f.header);
  }

  // ----- log entries

  datatype HeaderInfo = HeaderInfo(
    routeRaw: byte, kindRaw: byte, version: byte, hops: byte, hashSize: byte,
    pathHex: string, transportCodeHex: Option<string>)

  datatype LogEntry = LogEntry(header: Option<HeaderInfo>, payloadHex: string, payloadLen: nat)

  /** The entry logged for a parsed frame. */
  function EntryOf(f: Frame): LogEntry {
    var h := f.header;
    var code := if h.transportCode.Some? then Some(HexEncode(h.transportCode.value)) else None;
    LogEntry(Some(HeaderInfo(h.route, h.kind, h.version, h.hops, h.hashSize, HexEncode(h.path), code)),
             HexEncode(f.payload), |f.payload|)
  }

  /** The pieces of the reconstruction, in order. */
  function RawHex(h: HeaderInfo, payloadHex: string): string {
    var code := if h.transportCodeHex.Some? then h.transportCodeHex.value else "";
    HexEncode([PackHeader(h.version, h.kindRaw, h.routeRaw)]) + code
    + HexEncode([PackPath(h.hashSize, h.hops)]) + h.pathHex + payloadHex
  }

  /** `reconstruct_raw_packet_hex`: the hex string is built piece by piece. */
  method ReconstructRawPacketHex(e: LogEntry) returns (r: Option<string>)
    ensures r == if e.header.None? then None else Some(RawHex(e.header.value, e.payloadHex))
  {
    if e.header.None? {
      return None;
    }
    var h := e.header.value;
    var raw := HexEncode([PackHeader(h.version, h.kindRaw, h.routeRaw)]);
    assert raw + "" == raw;
    if h.transportCodeHex.Some? {
      raw := raw + h.transportCodeHex.value;
    }
    raw := raw + HexEncode([PackPath(h.hashSize, h.hops)]);
    raw := raw + h.pathHex;
    raw := raw + e.payloadHex;
    r := Some(raw);
  }

  lemma HexOfFive(a: seq<byte>, b: seq<byte>, c: seq<byte>, d: seq<byte>, e: seq<byte>)
    ensures HexEncode(a + b + c + d + e) == HexEncode(a) + HexEncode(b) + HexEncode(c) + HexEncode(d) + HexEncode(e)
  {
    HexConcat(a, b);
    HexConcat(a + b, c);
    HexConcat(a + b + c, d);
    HexConcat(a + b + c + d, e);
  }

  /** The reconstruction of a frame's log entry is the hex of its bytes. */
  lemma RawHexIsSerialized(f: Frame)
    ensures RawHex(EntryOf(f).header.value, EntryOf(f).payloadHex) == HexEncode(Serialize(f))
  {
    var h := f.header;
    HexOfFive([HeaderByte(h)], if h.transportCode.Some? then h.transportCode.value else [],
              [PathByte(h)], h.path, f.payload);
  }

  /** Rebuilding a log entry and parsing the result gives the entry's frame back
      exactly when its header is in range. */
  lemma EntryRoundTrip(f: Frame)
    ensures var bytes := HexDecode(RawHex(EntryOf(f).header.value, EntryOf(f).payloadHex));
            bytes.Some? && (Parse(bytes.value) == Some(f) <==> InRange(f.header))
  {
    RawHexIsSerialized(f);
    HexRoundTrip(Serialize(f));
    FrameRoundTrip(f);
  }

  /** Received bytes, logged and rebuilt, are the received bytes. */
  method RelayedUnchanged(bytes: seq<byte>) returns (raw: Option<string>)
    requires Parse(bytes).Some?
    ensures raw == Some(HexEncode(bytes)) && HexDecode(raw.value) == Some(bytes)
  {
    var f := Parse(bytes).value;
    raw := ReconstructRawPacketHex(EntryOf(f));
    SerializeParsed(bytes);
    RawHexIsSerialized(f);
    HexRoundTrip(bytes);
  }

  // ----- what is published about a packet

  const RAW_HEX_LIMIT := 2048

  function PublishedLen(e: LogEntry): nat
    requires e.header.Some?
  {
    var h := e.header.value;
    1 + (if h.transportCodeHex.Some? then 4 else 0) + 1 + |h.pathHex| / 2 + e.payloadLen
  }

  function PublishedRaw(raw: string): string {
    if |raw| <= RAW_HEX_LIMIT then raw else raw[..RAW_HEX_LIMIT]
  }

  lemma {:induction false} HexPrefix(bytes: seq<byte>, n: nat)
    requires n <= |bytes|
    ensures HexEncode(bytes)[..2 * n] == HexEncode(bytes[..n])
  {
    assert bytes == bytes[..n] + bytes[n..];
    HexConcat(bytes[..n], bytes[n..]);
  }

  /** The published length is the packet's byte count even when the published hex
      is cut, and the cut never splits a byte. */
  lemma PublishedFigures(bytes: seq<byte>)
    requires Parse(bytes).Some?
    ensures var e := EntryOf(Parse(bytes).value);
            && PublishedLen(e) == |bytes|
            && PublishedRaw(HexEncode(bytes)) == HexEncode(if |bytes| <= 1024 then bytes else bytes[..1024])
  {
    SerializeParsed(bytes);
    if |bytes| > 1024 {
      HexPrefix(bytes, 1024);
    }
  }

  // ----- hop hashes

  function Chunks(s: string, n: nat): (cs: seq<string>)
    requires n > 0
    ensures forall c :: c in cs ==> 0 < |c| <= n
    decreases |s|
  {
    if s == "" then [] else if |s| <= n then [s] else [s[..n]] + Chunks(s[n..], n)
  }

  function PathHopHashes(pathHex: string, hashSize: byte): seq<string> {
    var chunkLen := hashSize * 2;
    if chunkLen == 0 || |pathHex| % chunkLen != 0 then [] else Chunks(pathHex, chunkLen)
  }

  function Joined(cs: seq<string>): string {
    if cs == [] then "" else cs[0] + Joined(cs[1..])
  }

  lemma OneLess(count: nat, size: nat)
    requires count > 0
    ensures count * size == (count - 1) * size + size && (count - 1) * size >= 0
  {
  }

  /** Cutting `count` hashes' worth of hex gives them back one by one. */
  lemma {:induction false} ChunksOf(s: string, size: nat, count: nat)
    requires size > 0 && |s| == count * size
    ensures var cs := Chunks(s, size);
            |cs| == count && Joined(cs) == s && forall k :: 0 <= k < count ==> |cs[k]| == size
    decreases count
  {
    if count > 0 {
      OneLess(count, size);
      ChunksOf(s[size..], size, count - 1);
      if count == 1 {
        assert s[size..] == "" && s + "" == s;
      }
    }
  }

  /** A path of any length: it splits exactly when its length is a multiple of the
      hash size, and then into hashes of that size which join up to it. */
  lemma HopHashesOf(pathHex: string, hashSize: byte)
    ensures var cs := PathHopHashes(pathHex, hashSize);
            if pathHex == "" || hashSize == 0 || |pathHex| % (2 * hashSize) != 0 then cs == []
            else |cs| * (2 * hashSize) == |pathHex| && Joined(cs) == pathHex
                 && forall k :: 0 <= k < |cs| ==> |cs[k]| == 2 * hashSize
  {
    if hashSize != 0 && |pathHex| % (hashSize * 2) == 0 {
      ChunksOf(pathHex, hashSize * 2, |pathHex| / (hashSize * 2));
    }
  }

  lemma PathLength(h: Header)
    requires InRange(h)
    ensures |HexEncode(h.path)| == h.hops * (h.hashSize * 2)
  {
    if h.hashSize == 1 {
    } else if h.hashSize == 2 {
    } else if h.hashSize == 3 {
    } else {
    }
  }

  lemma Divides(h: Header)
    requires InRange(h)
    ensures |HexEncode(h.path)| % (h.hashSize * 2) == 0
  {
    PathLength(h);
    if h.hashSize == 1 {
    } else if h.hashSize == 2 {
    } else if h.hashSize == 3 {
    } else {
    }
  }

  /** A received packet's path splits into exactly as many hop hashes as its
      header says, all of the header's size, and they join up to the path. */
  lemma HopHashesOfPacket(bytes: seq<byte>)
    requires Parse(bytes).Some?
    ensures var h := EntryOf(Parse(bytes).value).header.value;
            var cs := PathHopHashes(h.pathHex, h.hashSize);
            && |cs| == h.hops && Joined(cs) == h.pathHex
            && forall k :: 0 <= k < |cs| ==> |cs[k]| == h.hashSize * 2
  {
    SerializeParsed(bytes);
    var h := Parse(bytes).value.header;
    Divides(h);
    PathLength(h);
    ChunksOf(HexEncode(h.path), h.hashSize * 2, h.hops);
  }
}
