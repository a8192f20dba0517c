/**
 Group text messages: sealing a text for a channel (pad, encrypt block by block,
 prefix a truncated MAC) and opening it again by trying the known channels in
 order. The hash, MAC and block cipher stay abstract.
 */
module GroupText {
  import opened Bytes
  import opened Wrappers

  const MAC_SIZE := 2
  const BLOCK_SIZE := 16
  const SECRET_SIZE := 32

  /** The primitives: SHA-256, HMAC-SHA256 and AES-128 on one block. */
  datatype Crypto = Crypto(
    sha: seq<byte> -> seq<byte>,
    mac: (seq<byte>, seq<byte>) -> seq<byte>,
    encrypt: (seq<byte>, seq<byte>) -> seq<byte>,
    decrypt: (seq<byte>, seq<byte>) -> seq<byte>)

  /** Digests are 32 bytes; decryption inverts encryption, block for block. */
  ghost predicate Sound(c: Crypto) {
    && (forall d :: |c.sha(d)| == 32)
    && (forall k, d :: |c.mac(k, d)| == 32)
    && (forall k, b :: |b| == BLOCK_SIZE ==> |c.encrypt(k, b)| == BLOCK_SIZE && c.decrypt(k, c.encrypt(k, b)) == b)
    && (forall k, b :: |b| == BLOCK_SIZE ==> |c.decrypt(k, b)| == BLOCK_SIZE)
  }

  // ----- channels

  datatype Channel = Channel(name: string, secret: seq<byte>, hash: byte)

  const PUBLIC_NAME := "Public"
  const PUBLIC_PSK: seq<byte> := [
    0x8b, 0x33, 0x87, 0xe9, 0xc5, 0xcd, 0xea, 0x6a, 0xc9, 0xe5, 0xed, 0xba, 0xa1, 0x15, 0xcd, 0x72]

  function Zeros(n: nat): (z: seq<byte>)
    ensures |z| == n && forall i :: 0 <= i < n ==> z[i] == 0
  {
    seq(n, i => 0)
  }

  /** The secret is the key padded to 32 bytes; the hash the first digest byte. */
  function ChannelOf(c: Crypto, name: string, psk: seq<byte>): (ch: Channel)
    requires Sound(c)
    ensures |ch.secret| == SECRET_SIZE && ch.name == name
  {
    var key := if |psk| <= SECRET_SIZE then psk else psk[..SECRET_SIZE];
    Channel(name, key + Zeros(SECRET_SIZE - |key|), c.sha(key)[0])
  }

  /** A channel's secret is its key, cut or padded with zeros to 32 bytes, and its hash
      the first byte of the digest of the key before padding. */
  lemma ChannelMeans(c: Crypto, name: string, psk: seq<byte>)
    requires Sound(c)
    ensures var ch, n := ChannelOf(c, name, psk), if |psk| < 32 then |psk| else 32;
            && ch.name == name && |ch.secret| == 32
            && ch.secret[..n] == psk[..n] && (forall i :: n <= i < 32 ==> ch.secret[i] == 0)
            && ch.hash == c.sha(psk[..n])[0]
  {
    assert psk[..|psk|] == psk;
  }

  /** The key of a hashtag channel: the digest of its name with a leading `#`. */
  function HashtagKey(c: Crypto, name: string, utf8: string -> seq<byte>): seq<byte>
    requires Sound(c)
  {
    c.sha(utf8(if |name| > 0 && name[0] == '#' then name else "#" + name))[..BLOCK_SIZE]
  }

  function Candidates(c: Crypto, names: seq<string>, utf8: string -> seq<byte>): (r: seq<Channel>)
    requires Sound(c)
    ensures |r| == |names| + 1
    ensures forall i :: 0 <= i < |r| ==> |r[i].secret| == SECRET_SIZE
  {
    if names == [] then [ChannelOf(c, PUBLIC_NAME, PUBLIC_PSK)]
    else
      var n := |names| - 1;
      Candidates(c, names[..n], utf8) + [ChannelOf(c, names[n], HashtagKey(c, names[n], utf8))]
  }

  /** The digest a hashtag channel's key is taken from: that of its name, with a `#` in
      front unless it has one. */
  function NameDigest(c: Crypto, name: string, utf8: string -> seq<byte>): seq<byte> {
    if |name| > 0 && name[0] == '#' then c.sha(utf8(name)) else c.sha(utf8("#" + name))
  }

  /** What the candidate for a name opens with: 16 bytes of that digest and 16 zeros,
      and the first byte of their own digest as its hash. */
  ghost predicate OpensWith(c: Crypto, ch: Channel, key: seq<byte>)
    requires Sound(c) && |key| == 16
  {
    |ch.secret| == 32 && ch.secret[..16] == key && (forall i :: 16 <= i < 32 ==> ch.secret[i] == 0)
    && ch.hash == c.sha(key)[0]
  }

  lemma SixteenByteKey(c: Crypto, name: string, key: seq<byte>)
    requires Sound(c) && |key| == 16
    ensures OpensWith(c, ChannelOf(c, name, key), key)
  {
    ChannelMeans(c, name, key);
    assert key[..16] == key;
  }

  /** "Public" always comes first, then the configured channels in order. */
  method PrecomputeChannelKeys(c: Crypto, names: seq<string>, utf8: string -> seq<byte>) returns (keys: seq<Channel>)
    requires Sound(c)
    ensures keys == Candidates(c, names, utf8)
    ensures |keys| == |names| + 1 && keys[0].name == "Public"
    ensures OpensWith(c, keys[0], [0x8b, 0x33, 0x87, 0xe9, 0xc5, 0xcd, 0xea, 0x6a,
                                   0xc9, 0xe5, 0xed, 0xba, 0xa1, 0x15, 0xcd, 0x72])
    ensures forall i :: 0 <= i < |names| ==>
              keys[i + 1].name == names[i] && OpensWith(c, keys[i + 1], NameDigest(c, names[i], utf8)[..16])
  {
    SixteenByteKey(c, PUBLIC_NAME, PUBLIC_PSK);
    keys := [ChannelOf(c, PUBLIC_NAME, PUBLIC_PSK)];
    for i := 0 to |names|
      invariant keys == Candidates(c, names[..i], utf8)
      invariant |keys| == i + 1 && keys[0].name == "Public" && OpensWith(c, keys[0], PUBLIC_PSK)
      invariant forall j :: 0 <= j < i ==>
                  keys[j + 1].name == names[j] && OpensWith(c, keys[j + 1], NameDigest(c, names[j], utf8)[..16])
    {
      assert names[..i + 1][..i] == names[..i];
      SixteenByteKey(c, names[i], HashtagKey(c, names[i], utf8));
      keys := keys + [ChannelOf(c, names[i], HashtagKey(c, names[i], utf8))];
    }
    assert names[..|names|] == names;
  }

  // ----- the cipher over a buffer

  function EncryptAll(c: Crypto, key: seq<byte>, plain: seq<byte>): seq<byte>
    requires |plain| % BLOCK_SIZE == 0
  {
    if plain == [] then []
    else c.encrypt(key, plain[..BLOCK_SIZE]) + EncryptAll(c, key, plain[BLOCK_SIZE..])
  }

  function DecryptAll(c: Crypto, key: seq<byte>, cipher: seq<byte>): seq<byte>
    requires |cipher| % BLOCK_SIZE == 0
  {
    if cipher == [] then []
    else c.decrypt(key, cipher[..BLOCK_SIZE]) + DecryptAll(c, key, cipher[BLOCK_SIZE..])
  }

  lemma {:induction false} DecryptInvertsEncrypt(c: Crypto, key: seq<byte>, plain: seq<byte>)
    requires Sound(c) && |plain| % BLOCK_SIZE == 0
    ensures |EncryptAll(c, key, plain)| == |plain|
    ensures DecryptAll(c, key, EncryptAll(c, key, plain)) == plain
  {
    if plain != [] {
      var block, rest := plain[..BLOCK_SIZE], plain[BLOCK_SIZE..];
      DecryptInvertsEncrypt(c, key, rest);
      var cipher := EncryptAll(c, key, plain);
      assert cipher[..BLOCK_SIZE] == c.encrypt(key, block) && cipher[BLOCK_SIZE..] == EncryptAll(c, key, rest);
      assert plain == block + rest;
    }
  }

  /** Decrypts the buffer in place, block after block. */
  method DecryptInPlace(c: Crypto, key: seq<byte>, buffer: array<byte>)
    requires Sound(c) && buffer.Length % BLOCK_SIZE == 0
    modifies buffer
    ensures buffer[..] == DecryptAll(c, key, old(buffer[..]))
  {
    var at := 0;
    ghost var was := buffer[..];
    while at < buffer.Length
      invariant 0 <= at <= buffer.Length && at % BLOCK_SIZE == 0
      invariant buffer[at..] == was[at..]
      invariant buffer[..at] + DecryptAll(c, key, was[at..]) == DecryptAll(c, key, was)
    {
      ghost var before := buffer[..];
      assert before[..at] == buffer[..at] && before[at..] == buffer[at..];
      var block := c.decrypt(key, buffer[at..at + BLOCK_SIZE]);
      assert before[at..at + BLOCK_SIZE] == buffer[at..at + BLOCK_SIZE];
      forall i | 0 <= i < BLOCK_SIZE {
        buffer[at + i] := block[i];
      }
      ghost var after := buffer[..];
      assert after == before[..at] + block + before[at + BLOCK_SIZE..];
      DecryptStep(c, key, was, at, before, after, block);
      ghost var next := at + BLOCK_SIZE;
      assert after[..next] == buffer[..next] && after[next..] == buffer[next..];
      at := at + BLOCK_SIZE;
    }
    assert buffer[..at] + [] == buffer[..];
  }

  lemma DecryptStep(c: Crypto, key: seq<byte>, was: seq<byte>, at: nat,
                    before: seq<byte>, after: seq<byte>, block: seq<byte>)
    requires Sound(c) && |before| == |after| == |was| && at < |was| && at % BLOCK_SIZE == 0 && |was| % BLOCK_SIZE == 0
    requires before[at..] == was[at..] && block == c.decrypt(key, before[at..at + BLOCK_SIZE])
    requires after == before[..at] + block + before[at + BLOCK_SIZE..]
    ensures after[at + BLOCK_SIZE..] == was[at + BLOCK_SIZE..]
    ensures before[..at] + DecryptAll(c, key, was[at..])
         == after[..at + BLOCK_SIZE] + DecryptAll(c, key, was[at + BLOCK_SIZE..])
  {
    var rest := was[at..];
    assert rest[BLOCK_SIZE..] == was[at + BLOCK_SIZE..];
    assert rest[..BLOCK_SIZE] == before[at..at + BLOCK_SIZE];
    assert after[..at + BLOCK_SIZE] == before[..at] + block;
    assert before[at + BLOCK_SIZE..] == before[at..][BLOCK_SIZE..];
  }

  /** `mac_then_decrypt` as a function: nothing when too short, not whole blocks,
      or not authenticated. */
  function Opened(c: Crypto, secret: seq<byte>, sealed: seq<byte>): Option<seq<byte>>
    requires Sound(c) && |secret| == SECRET_SIZE
  {
    if |sealed| <= MAC_SIZE || (|sealed| - MAC_SIZE) % BLOCK_SIZE != 0 then None
    else
      var mac, cipher := sealed[..MAC_SIZE], sealed[MAC_SIZE..];
      if c.mac(secret, cipher)[..MAC_SIZE] != mac then None
      else Some(DecryptAll(c, secret[..BLOCK_SIZE], cipher))
  }

  method MacThenDecrypt(c: Crypto, secret: seq<byte>, sealed: seq<byte>) returns (r: Option<seq<byte>>)
    requires Sound(c) && |secret| == SECRET_SIZE
    ensures r == Opened(c, secret, sealed)
  {
    if |sealed| <= MAC_SIZE {
      return None;
    }
    var mac, cipher := sealed[..MAC_SIZE], sealed[MAC_SIZE..];
    if |cipher| % BLOCK_SIZE != 0 {
      return None;
    }
    if c.mac(secret, cipher)[..MAC_SIZE] != mac {
      return None;
    }
    var buffer := new byte[|cipher|](i requires 0 <= i < |cipher| => cipher[i]);
    assert buffer[..] == cipher;
    DecryptInPlace(c, secret[..BLOCK_SIZE], buffer);
    r := Some(buffer[..]);
  }

  /** Block `i` of the plaintext is block `i` of the ciphertext, decrypted. */
  lemma {:induction false} DecryptBlock(c: Crypto, key: seq<byte>, cipher: seq<byte>, i: nat)
    requires Sound(c) && |cipher| % 16 == 0 && 16 * i + 16 <= |cipher|
    ensures |DecryptAll(c, key, cipher)| == |cipher|
    ensures DecryptAll(c, key, cipher)[16 * i..16 * i + 16] == c.decrypt(key, cipher[16 * i..16 * i + 16])
    decreases |cipher|
  {
    var rest := cipher[16..];
    DecryptLength(c, key, rest);
    if i > 0 {
      DecryptBlock(c, key, rest, i - 1);
      assert rest[16 * (i - 1)..16 * (i - 1) + 16] == cipher[16 * i..16 * i + 16];
      assert DecryptAll(c, key, cipher)[16..] == DecryptAll(c, key, rest);
    }
  }

  lemma {:induction false} DecryptLength(c: Crypto, key: seq<byte>, cipher: seq<byte>)
    requires Sound(c) && |cipher| % 16 == 0
    ensures |DecryptAll(c, key, cipher)| == |cipher|
    decreases |cipher|
  {
    if cipher != [] {
      DecryptLength(c, key, cipher[16..]);
    }
  }

  /** Bytes open exactly when they are two bytes of the MAC of some whole blocks, at
      least one, followed by those blocks; and then to their decryption. */
  lemma OpenedIff(c: Crypto, secret: seq<byte>, sealed: seq<byte>, plain: seq<byte>)
    requires Sound(c) && |secret| == 32
    ensures Opened(c, secret, sealed) == Some(plain)
        <==> exists cipher :: OpensTo(c, secret, sealed, cipher, plain)
  {
    if Opened(c, secret, sealed) == Some(plain) {
      assert sealed == sealed[..2] + sealed[2..];
      assert OpensTo(c, secret, sealed, sealed[2..], plain);
    }
    forall cipher | OpensTo(c, secret, sealed, cipher, plain) ensures Opened(c, secret, sealed) == Some(plain) {
      assert sealed[..2] == c.mac(secret, cipher)[..2] && sealed[2..] == cipher;
    }
  }

  ghost predicate OpensTo(c: Crypto, secret: seq<byte>, sealed: seq<byte>, cipher: seq<byte>, plain: seq<byte>)
    requires Sound(c) && |secret| == 32
  {
    && cipher != [] && |cipher| % 16 == 0
    && sealed == c.mac(secret, cipher)[..2] + cipher
    && plain == DecryptAll(c, secret[..16], cipher)
  }

  // ----- messages

  /** Index of the first zero byte from `i` on, or the length. */
  function TextEnd(p: seq<byte>, i: nat): (e: nat)
    requires i <= |p|
    ensures i <= e <= |p|
    ensures forall k :: i <= k < e ==> p[k] != 0
    ensures e < |p| ==> p[e] == 0
    decreases |p| - i
  {
    if i == |p| || p[i] == 0 then i else TextEnd(p, i + 1)
  }

  /** Four bytes of timestamp, the text type, the text up to a zero byte. */
  function ParsePlaintext(p: seq<byte>): Option<seq<byte>> {
    if |p| < 5 || p[4] / 4 != 0 then None else Some(p[5..TextEnd(p, 5)])
  }

  /** Does channel `ch` accept the payload, and with what text? */
  function Accepts(c: Crypto, ch: Channel, payload: seq<byte>): Option<seq<byte>>
    requires Sound(c) && |ch.secret| == SECRET_SIZE && payload != []
  {
    if payload[0] != ch.hash then None
    else
      match Opened(c, ch.secret, payload[1..])
      case None => None
      case Some(plain) => ParsePlaintext(plain)
  }

  /** A plaintext parses exactly when it has the five bytes before the text and a text
      type below 4, and then to what follows, up to the first zero or the end. */
  lemma ParsePlaintextIff(p: seq<byte>, text: seq<byte>)
    ensures ParsePlaintext(p) == Some(text)
        <==> && |p| >= 5 && p[4] < 4
             && |text| <= |p| - 5 && p[5..5 + |text|] == text && 0 !in text
             && (5 + |text| < |p| ==> p[5 + |text|] == 0)
  {
    if |p| >= 5 && p[4] < 4 {
      var e := TextEnd(p, 5);
      assert 0 !in p[5..e];
      if |text| <= |p| - 5 && p[5..5 + |text|] == text && 0 !in text && (5 + |text| < |p| ==> p[5 + |text|] == 0) {
        assert forall k :: 5 <= k < 5 + |text| ==> p[k] == text[k - 5] && p[k] in text;
        assert e == 5 + |text|;
      }
    }
  }

  /** A channel accepts a payload exactly when it is one that channel's key sealed: its
      hash byte, two bytes of the MAC of the rest, and whole blocks that decrypt to a
      plaintext with a text type below 4. */
  lemma AcceptsIff(c: Crypto, ch: Channel, payload: seq<byte>, text: seq<byte>)
    requires Sound(c) && |ch.secret| == 32 && payload != []
    ensures Accepts(c, ch, payload) == Some(text)
        <==> && |payload| > 3 && (|payload| - 3) % 16 == 0
             && payload == [ch.hash] + c.mac(ch.secret, payload[3..])[..2] + payload[3..]
             && var plain := DecryptAll(c, ch.secret[..16], payload[3..]);
                && |plain| >= 5 && plain[4] < 4
                && |text| <= |plain| - 5 && plain[5..5 + |text|] == text && 0 !in text
                && (5 + |text| < |plain| ==> plain[5 + |text|] == 0)
  {
    var sealed := payload[1..];
    if |payload| > 3 {
      var cipher := payload[3..];
      assert sealed[..2] == payload[1..3] && sealed[2..] == cipher;
      assert payload == [payload[0]] + payload[1..3] + cipher;
      assert payload == [ch.hash] + c.mac(ch.secret, cipher)[..2] + cipher
          <==> payload[0] == ch.hash && payload[1..3] == c.mac(ch.secret, cipher)[..2];
      if |cipher| % 16 == 0 {
        ParsePlaintextIff(DecryptAll(c, ch.secret[..16], cipher), text);
      }
    }
  }

  datatype Decoded = Decoded(channel: string, text: seq<byte>)

  function DecodeGroupText(c: Crypto, payload: seq<byte>, channels: seq<Channel>): Option<Decoded>
    requires Sound(c) && forall i :: 0 <= i < |channels| ==> |channels[i].secret| == SECRET_SIZE
  {
    if payload == [] || channels == [] then None
    else
      match Accepts(c, channels[0], payload)
      case Some(text) => Some(Decoded(channels[0].name, text))
      case None => DecodeGroupText(c, payload, channels[1..])
  }

  /** Channel `i` accepts and none before it does. */
  ghost predicate FirstToAccept(c: Crypto, payload: seq<byte>, channels: seq<Channel>, i: nat)
    requires Sound(c) && payload != [] && i < |channels|
    requires forall j :: 0 <= j < |channels| ==> |channels[j].secret| == SECRET_SIZE
  {
    Accepts(c, channels[i], payload).Some? && forall j :: 0 <= j < i ==> Accepts(c, channels[j], payload).None?
  }

  /** The answer is the first accepting channel's; nothing when none accepts. */
  lemma {:induction false} DecodeIsFirstMatch(c: Crypto, payload: seq<byte>, channels: seq<Channel>)
    requires Sound(c) && payload != []
    requires forall j :: 0 <= j < |channels| ==> |channels[j].secret| == SECRET_SIZE
    ensures var r := DecodeGroupText(c, payload, channels);
            && (r.None? <==> forall j :: 0 <= j < |channels| ==> Accepts(c, channels[j], payload).None?)
            && forall i :: 0 <= i < |channels| && FirstToAccept(c, payload, channels, i) ==>
                 r == Some(Decoded(channels[i].name, Accepts(c, channels[i], payload).value))
  {
    if channels != [] && Accepts(c, channels[0], payload).None? {
      var rest := channels[1..];
      DecodeIsFirstMatch(c, payload, rest);
      assert forall j :: 0 <= j < |rest| ==> channels[j + 1] == rest[j];
      assert forall j :: 1 <= j < |channels| ==> channels[j] == rest[j - 1];
      forall i | 0 <= i < |channels| && FirstToAccept(c, payload, channels, i)
        ensures DecodeGroupText(c, payload, channels)
             == Some(Decoded(channels[i].name, Accepts(c, channels[i], payload).value))
      {
        assert i > 0;
        assert FirstToAccept(c, payload, rest, i - 1);
      }
    }
  }

  // ----- the sender

  function Padded(p: seq<byte>): (r: seq<byte>)
    ensures |r| % BLOCK_SIZE == 0 && |r| >= |p| && r[..|p|] == p
    ensures forall i :: |p| <= i < |r| ==> r[i] == 0
  {
    p + Zeros((BLOCK_SIZE - |p| % BLOCK_SIZE) % BLOCK_SIZE)
  }

  /** What the sender of `text` on channel `ch` puts in the payload. */
  function Sealed(c: Crypto, ch: Channel, timestamp: seq<byte>, textType: byte, text: seq<byte>): seq<byte>
    requires Sound(c) && |ch.secret| == SECRET_SIZE
  {
    var cipher := EncryptAll(c, ch.secret[..BLOCK_SIZE], Padded(timestamp + [textType] + text));
    [ch.hash] + c.mac(ch.secret, cipher)[..MAC_SIZE] + cipher
  }

  /** The sender's own channel always accepts what it sealed, with the very text. */
  lemma SenderAccepts(c: Crypto, ch: Channel, timestamp: seq<byte>, textType: byte, text: seq<byte>)
    requires Sound(c) && |ch.secret| == SECRET_SIZE && |timestamp| == 4 && textType < 4
    requires 0 !in text
    ensures Accepts(c, ch, Sealed(c, ch, timestamp, textType, text)) == Some(text)
  {
    var message := timestamp + [textType] + text;
    var plain, key := Padded(message), ch.secret[..BLOCK_SIZE];
    var cipher := EncryptAll(c, key, plain);
    DecryptInvertsEncrypt(c, key, plain);
    var payload := Sealed(c, ch, timestamp, textType, text);
    var sealed := payload[1..];
    assert sealed == c.mac(ch.secret, cipher)[..MAC_SIZE] + cipher;
    assert sealed[..MAC_SIZE] == c.mac(ch.secret, cipher)[..MAC_SIZE] && sealed[MAC_SIZE..] == cipher;
    assert Opened(c, ch.secret, sealed) == Some(plain);
    PlaintextRoundTrip(message, textType, text);
  }

  lemma PlaintextRoundTrip(message: seq<byte>, textType: byte, text: seq<byte>)
    requires |message| == 5 + |text| && message[4] == textType < 4 && message[5..] == text && 0 !in text
    ensures ParsePlaintext(Padded(message)) == Some(text)
  {
    var p := Padded(message);
    assert forall k :: 0 <= k < |message| ==> p[k] == p[..|message|][k];
    var e := TextEnd(p, 5);
    forall k | 5 <= k < |message| ensures p[k] != 0 {
      assert p[k] == text[k - 5];
    }
    if |message| < |p| {
      assert p[|message|] == 0;
    }
    assert e == |message|;
    assert p[5..e] == p[..|message|][5..];
  }

  /** The header fields the decoder looks at. */
  datatype PacketHeader = PacketHeader(payloadType: string, version: byte)

  /** `decode_group_text`: only version 0 `GroupText` packets are tried at all. */
  function DecodeEntry(c: Crypto, header: Option<PacketHeader>, payload: seq<byte>, channels: seq<Channel>)
    : Option<Decoded>
    requires Sound(c) && forall i :: 0 <= i < |channels| ==> |channels[i].secret| == SECRET_SIZE
  {
    if header.None? || header.value.payloadType != "GroupText" || header.value.version != 0 then None
    else DecodeGroupText(c, payload, channels)
  }

  /** A sealed text decodes to itself under the sender's channel whenever no
      channel tried before it accepts, and to some text otherwise; under any
      other header it does not decode. */
  lemma GroupTextRoundTrip(
      c: Crypto, header: Option<PacketHeader>, channels: seq<Channel>, i: nat,
      timestamp: seq<byte>, textType: byte, text: seq<byte>)
    requires Sound(c) && i < |channels| && |timestamp| == 4 && textType < 4 && 0 !in text
    requires forall j :: 0 <= j < |channels| ==> |channels[j].secret| == SECRET_SIZE
    ensures var payload := Sealed(c, channels[i], timestamp, textType, text);
            var r := DecodeEntry(c, header, payload, channels);
            && (r.Some? <==> header == Some(PacketHeader("GroupText", 0)))
            && (r.Some? && (forall j :: 0 <= j < i ==> Accepts(c, channels[j], payload).None?)
                ==> r == Some(Decoded(channels[i].name, text)))
  {
    var payload := Sealed(c, channels[i], timestamp, textType, text);
    SenderAccepts(c, channels[i], timestamp, textType, text);
    DecodeIsFirstMatch(c, payload, channels);
  }
}
