/** The NIP-44 envelope (src/nip44.c), over an abstract cipher and MAC. */
module Nip44 {
  import opened Tables
  import opened Base64
  import opened Padding

  type Bytes = seq<bv8>
  type Block = b: Bytes | |b| == 32 witness seq(32, _ => 0)

  datatype MessageKeys = MessageKeys(key: Bytes, nonce: Bytes, auth: Bytes)

  // HKDF-expand, the ChaCha20 key stream, and HMAC with the nonce as associated data.
  datatype Crypto = Crypto(
    expand: (Block, Block) -> MessageKeys,
    stream: MessageKeys -> nat -> bv8,
    mac: (Bytes, Block, Bytes) -> Block)

  datatype Error = InvalidPayload | UnsupportedEncoding | Base64Decode | InvalidMac | InvalidPadding | BufferTooSmall

  datatype Result<+T> = Ok(value: T) | Err(error: Error)

  const HASH: Letter := 35
  const VERSION: bv8 := 2

  function Xor(c: Crypto, keys: MessageKeys, data: Bytes): (r: Bytes)
    ensures |r| == |data|
  {
    seq(|data|, i requires 0 <= i < |data| => data[i] ^ c.stream(keys)(i))
  }

  lemma XorTwice(c: Crypto, keys: MessageKeys, data: Bytes)
    ensures Xor(c, keys, Xor(c, keys, data)) == data
  {
    forall i | 0 <= i < |data| ensures Xor(c, keys, Xor(c, keys, data))[i] == data[i] {
      var s := c.stream(keys)(i);
      assert (data[i] ^ s) ^ s == data[i];
    }
  }

  /** `cursor_push_b16`: big-endian. */
  function Length16(n: nat): Bytes
    requires n < 0x1_0000
  {
    [(n / 256) as bv8, (n % 256) as bv8]
  }

  /** `cursor_pull_b16` */
  function FromLength16(b: Bytes): nat
    requires |b| >= 2
  {
    256 * (b[0] as int) + b[1] as int
  }

  function Zeros(n: nat): (r: Bytes)
    ensures |r| == n
  {
    seq(n, _ => 0)
  }

  /** Length prefix, plaintext, zero padding. */
  function Pad(plaintext: Bytes): (r: Bytes)
    requires |plaintext| < 0x1_0000
    ensures |r| == 2 + CalcPaddedLen(|plaintext|)
  {
    PaddedCovers(|plaintext|);
    Length16(|plaintext|) + plaintext + Zeros(CalcPaddedLen(|plaintext|) - |plaintext|)
  }

  /** The layout of a padded plaintext: its length in two bytes, the higher one first, the
      plaintext, and zeros. */
  lemma PadLayout(plaintext: Bytes)
    requires |plaintext| < 0x1_0000
    ensures var b := Pad(plaintext); var n := |plaintext|;
      && |b| == 2 + CalcPaddedLen(n)
      && b[0] as int == n / 256 && b[1] as int == n % 256
      && b[2..2 + n] == plaintext
      && forall i :: 2 + n <= i < |b| ==> b[i] == 0
  {
    hide CalcPaddedLen;
    PaddedCovers(|plaintext|);
    ByteRoundTrip(|plaintext| / 256);
    ByteRoundTrip(|plaintext| % 256);
  }

  lemma PaddedCovers(n: nat)
    requires n < 0x1_0000
    ensures n <= CalcPaddedLen(n) && 32 <= CalcPaddedLen(n)
  {
    if n > 32 { PaddedLenIsSpecIff(n); }
  }

  /** `unpad`: the prefix must fit, be positive, and account for the whole buffer. */
  function Unpad(padded: Bytes): Option<Bytes>
  {
    if |padded| < 2 then None
    else
      var n := FromLength16(padded);
      if n + 2 > |padded| then None
      else if n == 0 || |padded| != 2 + CalcPaddedLen(n) then None
      else Some(padded[2..2 + n])
  }

  lemma ByteRoundTrip(x: int)
    requires 0 <= x < 256
    ensures (x as bv8) as int == x
  {
    if x < 16 {
    } else if x < 32 {
    } else if x < 64 {
    } else if x < 128 {
    } else {
    }
  }

  lemma Length16RoundTrip(n: nat, rest: Bytes)
    requires n < 0x1_0000
    ensures FromLength16(Length16(n) + rest) == n
  {
    var b := Length16(n) + rest;
    ByteRoundTrip(n / 256);
    ByteRoundTrip(n % 256);
    assert b[0] as int == n / 256;
    assert b[1] as int == n % 256;
  }

  /** Unpadding inverts padding exactly on non-empty plaintexts. */
  lemma UnpadPadIff(plaintext: Bytes)
    requires |plaintext| < 0x1_0000
    ensures Unpad(Pad(plaintext)) == if plaintext == [] then None else Some(plaintext)
  {
    hide CalcPaddedLen;
    PaddedCovers(|plaintext|);
    var zeros := Zeros(CalcPaddedLen(|plaintext|) - |plaintext|);
    assert Pad(plaintext) == Length16(|plaintext|) + (plaintext + zeros);
    Length16RoundTrip(|plaintext|, plaintext + zeros);
    assert (Length16(|plaintext|) + (plaintext + zeros))[2..2 + |plaintext|] == plaintext;
  }

  // ---- the envelope ----

  /** Version, nonce, ciphertext and MAC. */
  function Seal(c: Crypto, conversation: Block, nonce: Block, plaintext: Bytes): Bytes
    requires |plaintext| < 0x1_0000
  {
    var keys := c.expand(conversation, nonce);
    var ciphertext := Xor(c, keys, Pad(plaintext));
    [VERSION] + nonce + ciphertext + c.mac(keys.auth, nonce, ciphertext)
  }

  /** `nip44_encrypt_with_key` with a buffer of `room` bytes, which holds the sealed
      bytes and then their encoding. `cursor_memset` refuses to fill the buffer to
      its last byte. */
  function Encrypt(c: Crypto, m: Maps, conversation: Block, nonce: Block, plaintext: Bytes, room: nat): Result<seq<Letter>>
    requires |plaintext| < 0x1_0000 && Shaped(m)
  {
    var sealedLen := 67 + CalcPaddedLen(|plaintext|);
    if room < 1 then Err(BufferTooSmall)
    else if room < 33 then Err(BufferTooSmall)
    else if room < 35 + |plaintext| then Err(BufferTooSmall)
    else if room <= 35 + CalcPaddedLen(|plaintext|) then Err(BufferTooSmall)
    else if room < sealedLen then Err(BufferTooSmall)
    else if room - sealedLen < EncodedLength(sealedLen) then Err(BufferTooSmall)
    else Ok(Encode(m, Seal(c, conversation, nonce, plaintext)))
  }

  datatype Payload = Payload(version: bv8, nonce: Block, ciphertext: Bytes, mac: Block)

  /** `nip44_decode_payload` */
  function DecodePayload(m: Maps, payload: seq<Letter>, room: nat): Result<Payload>
    requires Shaped(m)
  {
    if |payload| < 132 then Err(InvalidPayload)
    else if payload[0] == HASH then Err(UnsupportedEncoding)
    else if room < DecodedLength(|payload|) || Decode(m, payload).None? then Err(Base64Decode)
    else
      var buf := Decode(m, payload).value;
      if |buf| < 99 then Err(InvalidPayload)
      else Ok(Payload(buf[0], buf[1..33], buf[33..|buf| - 32], buf[|buf| - 32..]))
  }

  /** `nip44_decrypt_with_conversation_key`: the version is not looked at. */
  function Open(c: Crypto, conversation: Block, p: Payload): Result<Bytes>
  {
    var keys := c.expand(conversation, p.nonce);
    if c.mac(keys.auth, p.nonce, p.ciphertext) != p.mac then Err(InvalidMac)
    else
      match Unpad(Xor(c, keys, p.ciphertext))
      case None => Err(InvalidPadding)
      case Some(plaintext) => Ok(plaintext)
  }

  /** `nip44_decrypt_with_key` */
  function Decrypt(c: Crypto, m: Maps, conversation: Block, payload: seq<Letter>, room: nat): Result<Bytes>
    requires Shaped(m)
  {
    match DecodePayload(m, payload, room)
    case Err(e) => Err(e)
    case Ok(p) => Open(c, conversation, p)
  }

  // ---- what encryption promises ----

  /** Encryption fails only for lack of room, and exactly when the sealed bytes and
      their encoding do not both fit. */
  lemma EncryptSucceedsIff(c: Crypto, m: Maps, conversation: Block, nonce: Block, plaintext: Bytes, room: nat)
    requires |plaintext| < 0x1_0000 && Shaped(m)
    ensures var n := 67 + CalcPaddedLen(|plaintext|);
      Encrypt(c, m, conversation, nonce, plaintext, room) ==
        if room >= n + EncodedLength(n) then Ok(Encode(m, Seal(c, conversation, nonce, plaintext))) else Err(BufferTooSmall)
  {
    hide CalcPaddedLen, Encode, Seal;
    PaddedCovers(|plaintext|);
  }

  lemma FourParts(v: Bytes, nonce: Block, text: Bytes, mac: Block)
    requires |v| == 1
    ensures var s := v + nonce + text + mac;
      && |s| == 65 + |text|
      && s[0] == v[0] && s[1..33] == nonce && s[33..|s| - 32] == text && s[|s| - 32..] == mac
  {
  }

  lemma SealParts(c: Crypto, conversation: Block, nonce: Block, plaintext: Bytes)
    requires |plaintext| < 0x1_0000
    ensures var s := Seal(c, conversation, nonce, plaintext); var keys := c.expand(conversation, nonce);
      var ciphertext := Xor(c, keys, Pad(plaintext));
      && |s| == 67 + CalcPaddedLen(|plaintext|)
      && s[0] == VERSION && s[1..33] == nonce && s[33..|s| - 32] == ciphertext
      && s[|s| - 32..] == c.mac(keys.auth, nonce, ciphertext)
  {
    var keys := c.expand(conversation, nonce);
    var ciphertext := Xor(c, keys, Pad(plaintext));
    assert |ciphertext| == 2 + CalcPaddedLen(|plaintext|);
    hide Xor, Pad, CalcPaddedLen;
    FourParts([VERSION], nonce, ciphertext, c.mac(keys.auth, nonce, ciphertext));
  }

  /** The first letter encodes the version, so it is no `#`. */
  lemma FirstLetter(m: Maps, s: Bytes)
    requires Shaped(m) && |s| >= 3 && s[0] == VERSION
    ensures Encode(m, s)[0] == m.encode[0]
  {
  }

  /** Decrypting what was encrypted gives the plaintext back exactly when it is not
      empty; an empty one is sealed but then refused for its padding. */
  lemma DecryptEncryptIff(c: Crypto, m: Maps, conversation: Block, nonce: Block, plaintext: Bytes, room: nat, room': nat)
    requires |plaintext| < 0x1_0000 && Inverse(m) && m.encode[0] != HASH
    requires Encrypt(c, m, conversation, nonce, plaintext, room).Ok?
    requires room' >= DecodedLength(|Encrypt(c, m, conversation, nonce, plaintext, room).value|)
    ensures Decrypt(c, m, conversation, Encrypt(c, m, conversation, nonce, plaintext, room).value, room')
         == if plaintext == [] then Err(InvalidPadding) else Ok(plaintext)
  {
    assert Shaped(m);
    hide Inverse, CalcPaddedLen, Encode, Decode, Seal, Pad, Unpad, Xor;
    var s := Seal(c, conversation, nonce, plaintext);
    EncryptSucceedsIff(c, m, conversation, nonce, plaintext, room);
    PaddedCovers(|plaintext|);
    SealParts(c, conversation, nonce, plaintext);
    DecodeEncode(m, s);
    FirstLetter(m, s);
    XorTwice(c, c.expand(conversation, nonce), Pad(plaintext));
    UnpadPadIff(plaintext);
  }

  /** The version byte is neither checked nor authenticated. */
  lemma VersionIsIgnored(c: Crypto, conversation: Block, p: Payload, version: bv8)
    ensures Open(c, conversation, p.(version := version)) == Open(c, conversation, p)
  {
  }

  /** Whatever decrypts carries a MAC over its nonce and ciphertext, and has the
      padded size of its plaintext, which is not empty. */
  lemma DecryptedIsAuthentic(c: Crypto, m: Maps, conversation: Block, payload: seq<Letter>, room: nat)
    requires Shaped(m) && Decrypt(c, m, conversation, payload, room).Ok?
    ensures var p := DecodePayload(m, payload, room); var plaintext := Decrypt(c, m, conversation, payload, room).value;
      && p.Ok? && 0 < |plaintext| < 0x1_0000
      && |payload| >= 132 && payload[0] != '#' as nat
      && p.value.mac == c.mac(c.expand(conversation, p.value.nonce).auth, p.value.nonce, p.value.ciphertext)
      && |p.value.ciphertext| == 2 + SpecPaddedLen(|plaintext|)
  {
    hide CalcPaddedLen, SpecPaddedLen, Decode;
    PaddedLenIsSpecIff(|Decrypt(c, m, conversation, payload, room).value|);
  }
}
