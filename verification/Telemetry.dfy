/**
 CayenneLPP telemetry: the decoder's loop over a raw payload, and the encoder it
 must invert (big-endian fields, two's complement for signed types, three-byte
 GPS components). Values are exact quotients here rather than 64-bit floats.
 */
module Telemetry {
  import opened Bytes
  import opened Sequences
  import opened Wrappers

  datatype Reading = Reading(channel: byte, title: string, value: real, units: string)

  datatype FieldType = FieldType(code: byte, size: nat, signed: bool, mult: real, title: string, units: string)

  const LPP_GPS: byte := 136
  const GPS_COMPONENT_SIZE := 3
  const GPS_LAT_LON_MULT := 10000.0
  const GPS_ALT_MULT := 100.0

  const TYPES: seq<FieldType> := [
    FieldType(2, 2, true, 100.0, "Analog input", ""),
    FieldType(100, 4, false, 1.0, "Generic sensor", ""),
    FieldType(101, 2, false, 1.0, "Luminosity", "lux"),
    FieldType(103, 2, true, 10.0, "Temperature", "\U{b0}C"),
    FieldType(104, 1, false, 2.0, "Relative humidity", "%"),
    FieldType(115, 2, false, 10.0, "Barometric pressure", "hPa"),
    FieldType(116, 2, true, 100.0, "Voltage", "V"),
    FieldType(117, 2, true, 1000.0, "Current", "A"),
    FieldType(118, 4, false, 1.0, "Frequency", "Hz"),
    FieldType(120, 1, false, 1.0, "Percentage", "%"),
    FieldType(121, 2, true, 1.0, "Altitude", "m"),
    FieldType(128, 2, false, 1.0, "Power", "W"),
    FieldType(130, 4, false, 1000.0, "Distance", "m")
  ]

  function FindType(ts: seq<FieldType>, code: byte): (r: Option<FieldType>)
    ensures r.Some? ==> r.value in ts && r.value.code == code
  {
    if ts == [] then None else if ts[0].code == code then Some(ts[0]) else FindType(ts[1..], code)
  }

  /** What decoding relies on in a type table. */
  ghost predicate Sound(types: seq<FieldType>) {
    && (forall t :: t in types ==> 1 <= t.size <= 4 && t.mult != 0.0 && t.code != LPP_GPS)
    && (forall i, j :: 0 <= i < j < |types| ==> types[i].code != types[j].code)
  }

  ghost predicate Ascending(types: seq<FieldType>) {
    forall i :: 0 <= i < |types| - 1 ==> types[i].code < types[i + 1].code
  }

  lemma {:induction false} AscendingCodes(types: seq<FieldType>, i: nat, j: nat)
    requires Ascending(types) && i < j < |types|
    ensures types[i].code < types[j].code
  {
    if i < j - 1 {
      AscendingCodes(types, i, j - 1);
    }
  }

  predicate Usable(t: FieldType) {
    1 <= t.size <= 4 && t.mult != 0.0 && t.code != LPP_GPS && t.code != 0
  }

  lemma TypesUsable(i: nat)
    requires i < |TYPES|
    ensures Usable(TYPES[i])
  {
  }

  lemma TypesAscend(i: nat)
    requires i < |TYPES| - 1
    ensures TYPES[i].code < TYPES[i + 1].code
  {
  }

  /** The firmware's table is sound, and type 0 is not in it. */
  lemma TypesAreSound()
    ensures Sound(TYPES)
    ensures forall t :: t in TYPES ==> t.code != 0
  {
    SoundTable(TYPES) by {
      forall i | 0 <= i < |TYPES| ensures Usable(TYPES[i]) {
        TypesUsable(i);
      }
      forall i | 0 <= i < |TYPES| - 1 ensures TYPES[i].code < TYPES[i + 1].code {
        TypesAscend(i);
      }
    }
  }

  lemma SoundTable(types: seq<FieldType>)
    requires Ascending(types) && forall i :: 0 <= i < |types| ==> Usable(types[i])
    ensures Sound(types) && forall t :: t in types ==> t.code != 0
  {
    forall i, j | 0 <= i < j < |types| ensures types[i].code != types[j].code {
      AscendingCodes(types, i, j);
    }
    assert forall t :: t in types ==> Usable(t);
  }

  function Pow256(n: nat): (p: nat)
    ensures p >= 1
  {
    if n == 0 then 1 else 256 * Pow256(n - 1)
  }

  // ----- reading

  /** Big-endian: the fold shifts the accumulator left by a byte each step. */
  function ReadUnsigned(bytes: seq<byte>): int {
    if bytes == [] then 0 else ReadUnsigned(bytes[..|bytes| - 1]) * 256 + bytes[|bytes| - 1]
  }

  /** The sign bit is set exactly when the value reaches half of the range. */
  function ReadSigned(bytes: seq<byte>): int
    requires |bytes| >= 1
  {
    var raw, range := ReadUnsigned(bytes), Pow256(|bytes|);
    if raw >= range / 2 then raw - range else raw
  }

  function ReadField(t: FieldType, bytes: seq<byte>): int
    requires |bytes| >= 1
  {
    if t.signed then ReadSigned(bytes) else ReadUnsigned(bytes)
  }

  function GpsReadings(channel: byte, lat: int, lon: int, alt: int): seq<Reading> {
    [ Reading(channel, "GPS latitude", lat as real / GPS_LAT_LON_MULT, "\U{b0}"),
      Reading(channel, "GPS longitude", lon as real / GPS_LAT_LON_MULT, "\U{b0}"),
      Reading(channel, "GPS altitude", alt as real / GPS_ALT_MULT, "m") ]
  }

  function DecodeGps(channel: byte, data: seq<byte>): Option<seq<Reading>> {
    if |data| < GPS_COMPONENT_SIZE * 3 then None
    else Some(GpsReadings(channel, ReadSigned(data[..3]), ReadSigned(data[3..6]), ReadSigned(data[6..9])))
  }

  function ScalarReading(channel: byte, t: FieldType, raw: int): Reading
    requires t.mult != 0.0
  {
    Reading(channel, t.title, raw as real / t.mult, t.units)
  }

  /** The first record of `raw` and how many bytes it takes; nothing when the
      type is unknown or the bytes run out. */
  function DecodeOne(types: seq<FieldType>, raw: seq<byte>): (r: Option<(seq<Reading>, nat)>)
    requires Sound(types)
    ensures r.Some? ==> 2 < r.value.1 <= |raw|
  {
    if |raw| < 2 then None
    else if raw[1] == LPP_GPS then
      match DecodeGps(raw[0], raw[2..])
      case None => None
      case Some(fields) => Some((fields, 2 + GPS_COMPONENT_SIZE * 3))
    else
      match FindType(types, raw[1])
      case None => None
      case Some(t) =>
        if |raw| < 2 + t.size then None
        else
          var bytes := raw[2..2 + t.size];
          Some(([ScalarReading(raw[0], t, ReadField(t, bytes))], 2 + t.size))
  }

  function Decode(types: seq<FieldType>, raw: seq<byte>): seq<Reading>
    requires Sound(types)
    decreases |raw|
  {
    match DecodeOne(types, raw)
    case None => []
    case Some((fields, used)) => fields + Decode(types, raw[used..])
  }

  lemma DecodeStep(types: seq<FieldType>, raw: seq<byte>, i: nat, next: nat, fields: seq<Reading>, done: seq<Reading>)
    requires Sound(types) && i <= next <= |raw| && DecodeOne(types, raw[i..]) == Some((fields, next - i))
    ensures done + Decode(types, raw[i..]) == (done + fields) + Decode(types, raw[next..])
  {
    assert raw[i..][next - i..] == raw[next..];
  }

  /** The loop's body at index `i`: the record there and the index after it. */
  method DecodeRecord(types: seq<FieldType>, raw: seq<byte>, i: nat) returns (fields: Option<seq<Reading>>, next: nat)
    requires Sound(types) && i + 2 <= |raw|
    ensures i <= next <= |raw|
    ensures DecodeOne(types, raw[i..]) == if fields.None? then None else Some((fields.value, next - i))
  {
    var channel, code := raw[i], raw[i + 1];
    var start := i + 2;
    ghost var rest := raw[i..];
    assert rest[0] == channel && rest[1] == code;
    if code == LPP_GPS {
      assert rest[2..] == raw[start..];
      fields := DecodeGps(channel, raw[start..]);
      next := if fields.None? then i else start + GPS_COMPONENT_SIZE * 3;
      return;
    }
    var found := FindType(types, code);
    if found.None? || start + found.value.size > |raw| {
      return None, i;
    }
    var t := found.value;
    var bytes := raw[start..start + t.size];
    assert rest[2..2 + t.size] == bytes;
    fields := Some([ScalarReading(channel, t, ReadField(t, bytes))]);
    next := start + t.size;
  }

  /** `decode`: every access is in bounds and the loop ends on any bytes. */
  method DecodePayload(types: seq<FieldType>, raw: seq<byte>) returns (readings: seq<Reading>)
    requires Sound(types)
    ensures readings == Decode(types, raw)
  {
    readings := [];
    var i := 0;
    assert raw[0..] == raw;
    while i + 2 <= |raw|
      invariant i <= |raw|
      invariant readings + Decode(types, raw[i..]) == Decode(types, raw)
      decreases |raw| - i
    {
      var fields, next := DecodeRecord(types, raw, i);
      if fields.None? {
        break;
      }
      DecodeStep(types, raw, i, next, fields.value, readings);
      readings := readings + fields.value;
      i := next;
    }
    assert Decode(types, raw[i..]) == [];
  }

  // ----- the encoder

  /** A record a node can send: one scalar field, or one GPS position. */
  datatype Record =
    | Scalar(channel: byte, kind: FieldType, raw: int)
    | Gps(channel: byte, lat: int, lon: int, alt: int)

  predicate FitsSigned(v: int, size: nat) {
    -(Pow256(size) / 2) <= v < Pow256(size) / 2
  }

  predicate Encodable(types: seq<FieldType>, r: Record) {
    match r
    case Scalar(_, t, v) => t in types && if t.signed then FitsSigned(v, t.size) else 0 <= v < Pow256(t.size)
    case Gps(_, lat, lon, alt) =>
      FitsSigned(lat, GPS_COMPONENT_SIZE) && FitsSigned(lon, GPS_COMPONENT_SIZE) && FitsSigned(alt, GPS_COMPONENT_SIZE)
  }

  function EncodeUnsigned(v: int, size: nat): (bytes: seq<byte>)
    requires 0 <= v < Pow256(size)
    ensures |bytes| == size
  {
    if size == 0 then [] else EncodeUnsigned(v / 256, size - 1) + [v % 256]
  }

  /** A negative value becomes `mask - magnitude + 1`, the mask being all ones. */
  function EncodeSigned(v: int, size: nat): (bytes: seq<byte>)
    requires FitsSigned(v, size)
    ensures |bytes| == size
  {
    var mask := Pow256(size) - 1;
    EncodeUnsigned(if v < 0 then mask - (-v) + 1 else v, size)
  }

  function EncodeField(t: FieldType, v: int): (bytes: seq<byte>)
    requires if t.signed then FitsSigned(v, t.size) else 0 <= v < Pow256(t.size)
    ensures |bytes| == t.size
  {
    if t.signed then EncodeSigned(v, t.size) else EncodeUnsigned(v, t.size)
  }

  function EncodeRecord(types: seq<FieldType>, r: Record): seq<byte>
    requires Encodable(types, r)
  {
    match r
    case Scalar(channel, t, v) => [channel, t.code] + EncodeField(t, v)
    case Gps(channel, lat, lon, alt) =>
      [channel, LPP_GPS] + EncodeSigned(lat, 3) + EncodeSigned(lon, 3) + EncodeSigned(alt, 3)
  }

  function Encode(types: seq<FieldType>, rs: seq<Record>): seq<byte>
    requires forall r :: r in rs ==> Encodable(types, r)
  {
    if rs == [] then [] else EncodeRecord(types, rs[0]) + Encode(types, rs[1..])
  }

  function ReadingsOf(types: seq<FieldType>, r: Record): seq<Reading>
    requires Sound(types) && Encodable(types, r)
  {
    match r
    case Scalar(channel, t, v) => [ScalarReading(channel, t, v)]
    case Gps(channel, lat, lon, alt) => GpsReadings(channel, lat, lon, alt)
  }

  function AllReadings(types: seq<FieldType>, rs: seq<Record>): seq<Reading>
    requires Sound(types) && forall r :: r in rs ==> Encodable(types, r)
  {
    if rs == [] then [] else ReadingsOf(types, rs[0]) + AllReadings(types, rs[1..])
  }

  // ----- round trips

  lemma {:induction false} UnsignedRoundTrip(v: int, size: nat)
    requires 0 <= v < Pow256(size)
    ensures ReadUnsigned(EncodeUnsigned(v, size)) == v
  {
    if size > 0 {
      UnsignedRoundTrip(v / 256, size - 1);
      var bytes := EncodeUnsigned(v, size);
      assert bytes[..size - 1] == EncodeUnsigned(v / 256, size - 1);
    }
  }

  lemma SignedRoundTrip(v: int, size: nat)
    requires size >= 1 && FitsSigned(v, size)
    ensures ReadSigned(EncodeSigned(v, size)) == v
  {
    UnsignedRoundTrip(if v < 0 then Pow256(size) + v else v, size);
  }

  lemma {:induction false} CodesDistinct(ts: seq<FieldType>, t: FieldType)
    requires t in ts && forall i, j :: 0 <= i < j < |ts| ==> ts[i].code != ts[j].code
    ensures FindType(ts, t.code) == Some(t)
  {
    if ts[0] != t {
      var i :| 0 <= i < |ts| && ts[i] == t;
      assert ts[1..][i - 1] == t;
      CodesDistinct(ts[1..], t);
    }
  }

  lemma FieldRoundTrip(t: FieldType, v: int)
    requires t.size >= 1 && if t.signed then FitsSigned(v, t.size) else 0 <= v < Pow256(t.size)
    ensures ReadField(t, EncodeField(t, v)) == v
  {
    if t.signed {
      SignedRoundTrip(v, t.size);
    } else {
      UnsignedRoundTrip(v, t.size);
    }
  }

  lemma ScalarRoundTrip(types: seq<FieldType>, r: Record, tail: seq<byte>)
    requires Sound(types) && r.Scalar? && Encodable(types, r)
    ensures DecodeOne(types, EncodeRecord(types, r) + tail) == Some((ReadingsOf(types, r), |EncodeRecord(types, r)|))
  {
    var t := r.kind;
    CodesDistinct(types, t);
    FieldRoundTrip(t, r.raw);
    var raw := EncodeRecord(types, r) + tail;
    assert raw[0] == r.channel && raw[1] == t.code && raw[2..2 + t.size] == EncodeField(t, r.raw);
  }

  lemma GpsRoundTrip(types: seq<FieldType>, r: Record, tail: seq<byte>)
    requires Sound(types) && r.Gps? && Encodable(types, r)
    ensures DecodeOne(types, EncodeRecord(types, r) + tail) == Some((ReadingsOf(types, r), |EncodeRecord(types, r)|))
  {
    SignedRoundTrip(r.lat, 3);
    SignedRoundTrip(r.lon, 3);
    SignedRoundTrip(r.alt, 3);
    var raw := EncodeRecord(types, r) + tail;
    var data := raw[2..];
    assert raw[0] == r.channel && raw[1] == LPP_GPS;
    assert data == EncodeSigned(r.lat, 3) + EncodeSigned(r.lon, 3) + EncodeSigned(r.alt, 3) + tail;
    assert data[..3] == EncodeSigned(r.lat, 3) && data[3..6] == EncodeSigned(r.lon, 3)
        && data[6..9] == EncodeSigned(r.alt, 3);
  }

  lemma RecordRoundTrip(types: seq<FieldType>, r: Record, tail: seq<byte>)
    requires Sound(types) && Encodable(types, r)
    ensures Decode(types, EncodeRecord(types, r) + tail) == ReadingsOf(types, r) + Decode(types, tail)
  {
    var head := EncodeRecord(types, r);
    if r.Scalar? {
      ScalarRoundTrip(types, r, tail);
    } else {
      GpsRoundTrip(types, r, tail);
    }
    assert (head + tail)[|head|..] == tail;
  }

  /** Decoding any encoded list of records followed by anything gives the records'
      readings, then whatever the rest decodes to: nothing when the rest is
      padding. */
  lemma {:induction false} DecodeInvertsEncode(types: seq<FieldType>, rs: seq<Record>, tail: seq<byte>)
    requires Sound(types) && forall r :: r in rs ==> Encodable(types, r)
    ensures Decode(types, Encode(types, rs) + tail) == AllReadings(types, rs) + Decode(types, tail)
  {
    if rs == [] {
      assert Encode(types, rs) + tail == tail;
    } else {
      var head, rest := EncodeRecord(types, rs[0]), Encode(types, rs[1..]);
      ConcatAssociates(head, rest, tail);
      RecordRoundTrip(types, rs[0], rest + tail);
      DecodeInvertsEncode(types, rs[1..], tail);
      ConcatAssociates(ReadingsOf(types, rs[0]), AllReadings(types, rs[1..]), Decode(types, tail));
    }
  }

  /** With the firmware's types, zero padding decodes to nothing, so padded
      payloads give exactly the readings that were encoded. */
  lemma PaddedPayload(rs: seq<Record>, tail: seq<byte>)
    requires forall r :: r in rs ==> Encodable(TYPES, r)
    requires |tail| >= 2 ==> tail[1] == 0
    ensures Sound(TYPES) && Decode(TYPES, Encode(TYPES, rs) + tail) == AllReadings(TYPES, rs)
  {
    TypesAreSound();
    DecodeInvertsEncode(TYPES, rs, tail);
    UnknownTypeStops(TYPES, tail);
  }

  lemma UnknownTypeStops(types: seq<FieldType>, tail: seq<byte>)
    requires Sound(types)
    requires |tail| >= 2 ==> tail[1] != LPP_GPS && forall t :: t in types ==> t.code != tail[1]
    ensures Decode(types, tail) == []
  {
  }

  lemma DecodeOneOfPrefix(types: seq<FieldType>, a: seq<byte>, b: seq<byte>)
    requires Sound(types) && DecodeOne(types, a).Some?
    ensures DecodeOne(types, a + b) == DecodeOne(types, a)
  {
    var ab := a + b;
    assert ab[0] == a[0] && ab[1] == a[1];
    if a[1] == LPP_GPS {
      var d, d' := a[2..], ab[2..];
      assert |d| >= 9;
      assert d' == d + b;
      assert d[..3] == d'[..3] && d[3..6] == d'[3..6] && d[6..9] == d'[6..9];
    } else {
      var t := FindType(types, a[1]).value;
      assert a[2..2 + t.size] == ab[2..2 + t.size];
    }
  }

  /** A payload cut short loses readings only from the end. */
  lemma {:induction false} DecodeIsMonotone(types: seq<FieldType>, a: seq<byte>, b: seq<byte>)
    requires Sound(types)
    ensures Decode(types, a) <= Decode(types, a + b)
    decreases |a|
  {
    match DecodeOne(types, a)
    case None =>
    case Some((fields, used)) =>
      DecodeOneOfPrefix(types, a, b);
      assert (a + b)[used..] == a[used..] + b;
      DecodeIsMonotone(types, a[used..], b);
  }

  // ----- what the numbers mean

  /** A record's readings, in the program's own units: a scalar's value is the
      transmitted number divided by its type's multiplier, and a position gives
      latitude and longitude in ten-thousandths of a degree and altitude in
      hundredths of a metre. */
  lemma ReadingsMean(types: seq<FieldType>, r: Record)
    requires Sound(types) && Encodable(types, r)
    ensures var rs := ReadingsOf(types, r);
            match r
            case Scalar(channel, t, v) =>
              |rs| == 1 && rs[0].channel == channel && rs[0].title == t.title && rs[0].units == t.units
              && rs[0].value * t.mult == v as real
            case Gps(channel, lat, lon, alt) =>
              rs == [Reading(channel, "GPS latitude", lat as real / 10000.0, "\U{b0}"),
                     Reading(channel, "GPS longitude", lon as real / 10000.0, "\U{b0}"),
                     Reading(channel, "GPS altitude", alt as real / 100.0, "m")]
  {
  }

  /** Two bytes as a number, and in two's complement. */
  function Two(hi: byte, lo: byte): int {
    hi * 256 + lo
  }

  function TwoSigned(hi: byte, lo: byte): int {
    if hi < 128 then Two(hi, lo) else Two(hi, lo) - 65536
  }

  function Three(a: byte, b: byte, c: byte): int {
    if a < 128 then a * 65536 + b * 256 + c else a * 65536 + b * 256 + c - 16777216
  }

  function Four(a: byte, b: byte, c: byte, d: byte): int {
    a * 16777216 + b * 65536 + c * 256 + d
  }

  lemma ReadsOne(a: byte)
    ensures ReadUnsigned([a]) == a
  {
    assert [a][..0] == [];
  }

  lemma ReadsTwo(a: byte, b: byte)
    ensures ReadUnsigned([a, b]) == Two(a, b) && ReadSigned([a, b]) == TwoSigned(a, b)
  {
    ReadsOne(a);
    assert [a, b][..1] == [a];
    assert Pow256(2) == 65536;
  }

  lemma ReadsThree(a: byte, b: byte, c: byte)
    ensures ReadUnsigned([a, b, c]) == a * 65536 + b * 256 + c && ReadSigned([a, b, c]) == Three(a, b, c)
  {
    ReadsTwo(a, b);
    assert [a, b, c][..2] == [a, b];
    assert Pow256(1) == 256 && Pow256(2) == 65536 && Pow256(3) == 16777216;
  }

  lemma ReadsFour(a: byte, b: byte, c: byte, d: byte)
    ensures ReadUnsigned([a, b, c, d]) == Four(a, b, c, d)
  {
    ReadsThree(a, b, c);
    assert [a, b, c, d][..3] == [a, b, c];
  }

  /** One record of a listed type, and then `tail`. */
  lemma OneRecord(types: seq<FieldType>, t: FieldType, channel: byte, bytes: seq<byte>, tail: seq<byte>)
    requires Sound(types) && t in types && |bytes| == t.size
    ensures Decode(types, [channel, t.code] + bytes + tail)
         == [Reading(channel, t.title, ReadField(t, bytes) as real / t.mult, t.units)] + Decode(types, tail)
  {
    CodesDistinct(types, t);
    var raw := [channel, t.code] + bytes + tail;
    assert raw[2..2 + t.size] == bytes && raw[2 + t.size..] == tail;
  }

  /** Records of type `code` carry one byte, the value times `mult`, whatever follows. */
  ghost predicate OneByteField(types: seq<FieldType>, code: byte, mult: real, title: string, units: string) {
    Sound(types) && mult != 0.0
    && forall channel: byte, a: byte, tail: seq<byte> ::
         Decode(types, [channel, code] + [a] + tail)
         == [Reading(channel, title, a as real / mult, units)] + Decode(types, tail)
  }

  /** Two bytes, the first one the higher. */
  ghost predicate TwoByteField(types: seq<FieldType>, code: byte, mult: real, title: string, units: string) {
    Sound(types) && mult != 0.0
    && forall channel: byte, hi: byte, lo: byte, tail: seq<byte> ::
         Decode(types, [channel, code] + [hi, lo] + tail)
         == [Reading(channel, title, Two(hi, lo) as real / mult, units)] + Decode(types, tail)
  }

  /** Two bytes in two's complement. */
  ghost predicate SignedField(types: seq<FieldType>, code: byte, mult: real, title: string, units: string) {
    Sound(types) && mult != 0.0
    && forall channel: byte, hi: byte, lo: byte, tail: seq<byte> ::
         Decode(types, [channel, code] + [hi, lo] + tail)
         == [Reading(channel, title, TwoSigned(hi, lo) as real / mult, units)] + Decode(types, tail)
  }

  /** Four bytes, the highest first. */
  ghost predicate FourByteField(types: seq<FieldType>, code: byte, mult: real, title: string, units: string) {
    Sound(types) && mult != 0.0
    && forall channel: byte, a: byte, b: byte, c: byte, d: byte, tail: seq<byte> ::
         Decode(types, [channel, code] + [a, b, c, d] + tail)
         == [Reading(channel, title, Four(a, b, c, d) as real / mult, units)] + Decode(types, tail)
  }

  lemma OneByteFieldOf(types: seq<FieldType>, t: FieldType)
    requires Sound(types) && t in types && t.size == 1 && !t.signed
    ensures OneByteField(types, t.code, t.mult, t.title, t.units)
  {
    forall channel: byte, a: byte, tail: seq<byte>
      ensures Decode(types, [channel, t.code] + [a] + tail)
           == [Reading(channel, t.title, a as real / t.mult, t.units)] + Decode(types, tail)
    {
      ReadsOne(a);
      OneRecord(types, t, channel, [a], tail);
    }
  }

  lemma TwoByteFieldOf(types: seq<FieldType>, t: FieldType)
    requires Sound(types) && t in types && t.size == 2
    ensures if t.signed then SignedField(types, t.code, t.mult, t.title, t.units)
            else TwoByteField(types, t.code, t.mult, t.title, t.units)
  {
    forall channel: byte, hi: byte, lo: byte, tail: seq<byte>
      ensures Decode(types, [channel, t.code] + [hi, lo] + tail)
           == [Reading(channel, t.title, (if t.signed then TwoSigned(hi, lo) else Two(hi, lo)) as real / t.mult,
                       t.units)] + Decode(types, tail)
    {
      ReadsTwo(hi, lo);
      OneRecord(types, t, channel, [hi, lo], tail);
    }
  }

  lemma FourByteFieldOf(types: seq<FieldType>, t: FieldType)
    requires Sound(types) && t in types && t.size == 4 && !t.signed
    ensures FourByteField(types, t.code, t.mult, t.title, t.units)
  {
    forall channel: byte, a: byte, b: byte, c: byte, d: byte, tail: seq<byte>
      ensures Decode(types, [channel, t.code] + [a, b, c, d] + tail)
           == [Reading(channel, t.title, Four(a, b, c, d) as real / t.mult, t.units)] + Decode(types, tail)
    {
      ReadsFour(a, b, c, d);
      OneRecord(types, t, channel, [a, b, c, d], tail);
    }
  }

  /** How the firmware's fields of one and of four bytes are read. */
  lemma NarrowAndWideFields()
    ensures OneByteField(TYPES, 104, 2.0, "Relative humidity", "%")
    ensures OneByteField(TYPES, 120, 1.0, "Percentage", "%")
    ensures FourByteField(TYPES, 100, 1.0, "Generic sensor", "")
    ensures FourByteField(TYPES, 118, 1.0, "Frequency", "Hz")
    ensures FourByteField(TYPES, 130, 1000.0, "Distance", "m")
  {
    TypesAreSound();
    OneByteFieldOf(TYPES, FieldType(104, 1, false, 2.0, "Relative humidity", "%"));
    OneByteFieldOf(TYPES, FieldType(120, 1, false, 1.0, "Percentage", "%"));
    FourByteFieldOf(TYPES, FieldType(100, 4, false, 1.0, "Generic sensor", ""));
    FourByteFieldOf(TYPES, FieldType(118, 4, false, 1.0, "Frequency", "Hz"));
    FourByteFieldOf(TYPES, FieldType(130, 4, false, 1000.0, "Distance", "m"));
  }

  /** How the firmware's two-byte fields are read, with and without a sign. */
  lemma TwoByteFields()
    ensures TwoByteField(TYPES, 101, 1.0, "Luminosity", "lux")
    ensures TwoByteField(TYPES, 115, 10.0, "Barometric pressure", "hPa")
    ensures TwoByteField(TYPES, 128, 1.0, "Power", "W")
    ensures SignedField(TYPES, 2, 100.0, "Analog input", "")
    ensures SignedField(TYPES, 103, 10.0, "Temperature", "\U{b0}C")
    ensures SignedField(TYPES, 116, 100.0, "Voltage", "V")
    ensures SignedField(TYPES, 117, 1000.0, "Current", "A")
    ensures SignedField(TYPES, 121, 1.0, "Altitude", "m")
  {
    TypesAreSound();
    TwoByteFieldOf(TYPES, FieldType(101, 2, false, 1.0, "Luminosity", "lux"));
    TwoByteFieldOf(TYPES, FieldType(115, 2, false, 10.0, "Barometric pressure", "hPa"));
    TwoByteFieldOf(TYPES, FieldType(128, 2, false, 1.0, "Power", "W"));
    TwoByteFieldOf(TYPES, FieldType(2, 2, true, 100.0, "Analog input", ""));
    TwoByteFieldOf(TYPES, FieldType(103, 2, true, 10.0, "Temperature", "\U{b0}C"));
    TwoByteFieldOf(TYPES, FieldType(116, 2, true, 100.0, "Voltage", "V"));
    TwoByteFieldOf(TYPES, FieldType(117, 2, true, 1000.0, "Current", "A"));
    TwoByteFieldOf(TYPES, FieldType(121, 2, true, 1.0, "Altitude", "m"));
  }

  lemma GpsData(lat: seq<byte>, lon: seq<byte>, alt: seq<byte>, tail: seq<byte>)
    requires |lat| == 3 && |lon| == 3 && |alt| == 3
    ensures var data := lat + lon + alt + tail;
            data[..3] == lat && data[3..6] == lon && data[6..9] == alt && data[9..] == tail
  {
  }

  lemma ThreeBytes(v: seq<byte>)
    requires |v| == 3
    ensures ReadSigned(v) == Three(v[0], v[1], v[2])
  {
    ReadsThree(v[0], v[1], v[2]);
    assert v == [v[0], v[1], v[2]];
  }

  /** A position: three bytes each, in two's complement, of latitude, longitude and
      altitude, in that order. */
  lemma GpsField(types: seq<FieldType>, channel: byte, lat: seq<byte>, lon: seq<byte>, alt: seq<byte>, tail: seq<byte>)
    requires Sound(types) && |lat| == 3 && |lon| == 3 && |alt| == 3
    ensures Decode(types, [channel, 136] + (lat + lon + alt + tail))
         == [Reading(channel, "GPS latitude", Three(lat[0], lat[1], lat[2]) as real / 10000.0, "\U{b0}"),
             Reading(channel, "GPS longitude", Three(lon[0], lon[1], lon[2]) as real / 10000.0, "\U{b0}"),
             Reading(channel, "GPS altitude", Three(alt[0], alt[1], alt[2]) as real / 100.0, "m")]
            + Decode(types, tail)
  {
    var data := lat + lon + alt + tail;
    var raw := [channel, 136] + data;
    GpsData(lat, lon, alt, tail);
    ThreeBytes(lat);
    ThreeBytes(lon);
    ThreeBytes(alt);
    assert raw[2..] == data && raw[11..] == data[9..];
  }
}
