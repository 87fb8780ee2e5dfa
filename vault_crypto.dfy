/**
 * The client-side envelope codec of the document vault (vaultCrypto.ts):
 * a document body is encrypted with AES-GCM under a key derived from an
 * address-shaped seed, and travels as the text envelope
 * `v1:<base64 nonce>:<base64 ciphertext>`. The seed comes back from the
 * confidential-compute service in one of several encodings and is
 * normalised to a checksummed address first.
 */
module VaultCrypto {
  import opened Js
  import opened JsText
  import opened JsNumeric
  import opened Base64
  import opened Platform
  import opened EthAddress

  /** The version tag of the only envelope format. */
  const Version: string := "v1"
  /** Bytes of AES-GCM nonce drawn per encryption. */
  const IvLength: nat := 12
  /** Bytes in an address, and in the random seed of a new vault key. */
  const AddressLength: nat := 20

  // ---------------------------------------------------------------------
  // Bytes and base64

  /** `toBase64(bytes)`: the bytes as a binary string, then `btoa`. */
  method ToBase64(bytes: array<byte>) returns (encoded: string)
    ensures encoded == Encode(bytes[..])
  {
    var binary := "";
    for i := 0 to bytes.Length
      invariant binary == BinaryString(bytes[..i])
    {
      binary := binary + [bytes[i] as char];
    }
    assert bytes[..bytes.Length] == bytes[..];
    AtobBtoa(bytes[..]);
    var r := Btoa(binary);
    encoded := r.value;
  }

  /** What `fromBase64(s)` returns: the bytes of `atob(s)`, or the exception `atob` throws. */
  function DecodeBase64(s: string): (r: Result<seq<byte>>)
    ensures r.Err? ==> r.error == InvalidCharacter
  {
    match Atob(s)
    case Ok(binary) => Ok(BinaryBytes(binary))
    case Err(e) => Err(e)
  }

  /** `fromBase64(base64)`: `atob`, then each character code into a fresh `Uint8Array`. */
  method FromBase64(base64: string) returns (r: Result<array<byte>>)
    ensures r.Ok? <==> DecodeBase64(base64).Ok?
    ensures r.Err? ==> r.error == DecodeBase64(base64).error
    ensures r.Ok? ==> fresh(r.value) && r.value[..] == DecodeBase64(base64).value
  {
    var binary :- Atob(base64);
    var bytes := CharCodes(binary);
    r := Ok(bytes);
  }

  /** The loop of `fromBase64`: a fresh `Uint8Array` holding each character code of a binary string. */
  method CharCodes(binary: string) returns (bytes: array<byte>)
    requires IsBinaryString(binary)
    ensures fresh(bytes) && bytes[..] == BinaryBytes(binary)
  {
    bytes := new byte[|binary|];
    for i := 0 to |binary|
      invariant forall j :: 0 <= j < i ==> bytes[j] == binary[j] as int
    {
      bytes[i] := binary[i] as int % 256;
    }
  }

  /** Every envelope field written by `toBase64` is read back by `fromBase64`. */
  lemma DecodeBase64Encode(b: seq<byte>)
    ensures DecodeBase64(Encode(b)) == Ok(b)
  {
    AtobBtoa(b);
    BinaryRoundTrip(b);
  }

  // ---------------------------------------------------------------------
  // Addresses and keys

  /** `parseInt(pair, 16)` for two hex digits. */
  function PairValue(pair: string): (b: byte)
    requires |pair| == 2 && IsHexString(pair)
    ensures b == DigitValue(pair[0]) * 16 + DigitValue(pair[1])
  {
    var high := pair[..1];
    assert high[..0] == [] && high[0] == pair[0];
    assert DigitsValue(high, 16) == DigitValue(pair[0]);
    assert DigitValue(pair[0]) < 16 && DigitValue(pair[1]) < 16;
    DigitsValue(pair, 16)
  }

  /** Byte `i` is the value of hex digits `2i` and `2i+1`. */
  function PairBytes(hex: string): (b: seq<byte>)
    requires |hex| % 2 == 0 && IsHexString(hex)
    ensures |b| == |hex| / 2
  {
    seq(|hex| / 2, i requires 0 <= i < |hex| / 2 => PairValue(hex[2 * i..2 * i + 2]))
  }

  /** What `addressToBytes(address)` returns: the 20 bytes of the checksummed address, or the exception of `getAddress`. */
  function AddressBytes(p: Primitives, address: string): (r: Result<seq<byte>>)
    ensures r.Ok? ==> |r.value| == AddressLength
  {
    var normalized :- GetAddress(p, address);
    Ok(PairBytes(normalized[2..]))
  }

  /** `addressToBytes(address)`: `getAddress`, drop the `0x`, then fill a `Uint8Array` two digits at a time. */
  method AddressToBytes(p: Primitives, address: string) returns (r: Result<array<byte>>)
    ensures r.Ok? <==> AddressBytes(p, address).Ok?
    ensures r.Err? ==> r.error == AddressBytes(p, address).error
    ensures r.Ok? ==> fresh(r.value) && r.value[..] == AddressBytes(p, address).value
  {
    var normalized :- GetAddress(p, address);
    var bytes := PairsToBytes(normalized[2..]);  // `replace('0x', '')`: the only "0x" is the prefix
    r := Ok(bytes);
  }

  /** The indexed loop of `addressToBytes`: byte `i` is `parseInt` of digits `2i` and `2i+1`. */
  method PairsToBytes(hex: string) returns (bytes: array<byte>)
    requires |hex| % 2 == 0 && IsHexString(hex)
    ensures fresh(bytes) && bytes[..] == PairBytes(hex)
  {
    bytes := new byte[|hex| / 2];
    for i := 0 to bytes.Length
      invariant forall j :: 0 <= j < i ==> bytes[j] == PairValue(hex[2 * j..2 * j + 2])
    {
      bytes[i] := PairValue(hex[i * 2..i * 2 + 2]);
    }
  }

  /** `deriveKeyFromAddress(address)`: SHA-256 of the address bytes, imported as a raw AES-GCM key. */
  function DeriveKey(p: Primitives, address: string): (r: Result<Digest>)
    ensures r.Err? ==> r.error == InvalidAddress || r.error == BadAddressChecksum
  {
    var bytes :- AddressBytes(p, address);
    Ok(p.sha256(bytes))
  }

  /** The unsigned big-endian number a byte string stands for. */
  function BigEndian(b: seq<byte>): (v: nat)
    decreases |b|
  {
    if b == [] then 0 else BigEndian(b[..|b| - 1]) * 256 + b[|b| - 1]
  }

  /** The last two digits of a run contribute their pair's value in the lowest byte. */
  lemma DigitsValueLastPair(hex: string)
    requires |hex| >= 2 && IsHexString(hex)
    ensures var n := |hex|;
      DigitsValue(hex, 16) == DigitsValue(hex[..n - 2], 16) * 256 + PairValue(hex[n - 2..])
  {
    var n := |hex|;
    assert hex[..n - 1][..n - 2] == hex[..n - 2];
    assert hex[n - 2..][0] == hex[n - 2] && hex[n - 2..][1] == hex[n - 1];
  }

  /** Dropping the last pair of digits drops the last byte. */
  lemma PairBytesFront(hex: string)
    requires |hex| >= 2 && |hex| % 2 == 0 && IsHexString(hex)
    ensures var n := |hex|; var b := PairBytes(hex);
      b[..|b| - 1] == PairBytes(hex[..n - 2]) && b[|b| - 1] == PairValue(hex[n - 2..])
  {
    var n := |hex|;
    var front := hex[..n - 2];
    var b := PairBytes(hex);
    forall i | 0 <= i < |b| - 1
      ensures b[i] == PairBytes(front)[i]
    {
      assert hex[2 * i..2 * i + 2] == front[2 * i..2 * i + 2];
    }
  }

  /** Read as a big-endian number, the bytes of a hex string are the number its digits write. */
  lemma {:induction false} PairBytesValue(hex: string)
    requires |hex| % 2 == 0 && IsHexString(hex)
    ensures BigEndian(PairBytes(hex)) == DigitsValue(hex, 16)
    decreases |hex|
  {
    if hex != [] {
      var n := |hex|;
      var front, b := hex[..n - 2], PairBytes(hex);
      PairBytesFront(hex);
      PairBytesValue(front);
      DigitsValueLastPair(hex);
      calc {
        BigEndian(b);
        BigEndian(b[..|b| - 1]) * 256 + b[|b| - 1];
        BigEndian(PairBytes(front)) * 256 + PairValue(hex[n - 2..]);
        DigitsValue(front, 16) * 256 + PairValue(hex[n - 2..]);
      }
    }
  }

  /** Hex strings whose digits have the same values give the same bytes. */
  lemma PairBytesIgnoreCase(s: string, t: string)
    requires |s| % 2 == 0 && IsHexString(s)
    requires |t| == |s| && forall i :: 0 <= i < |s| ==> DigitValue(s[i]) == DigitValue(t[i])
    ensures IsHexString(t) && PairBytes(t) == PairBytes(s)
  {
    SameDigitsSameValue(s, t, 16);
  }

  /**
   * `addressToBytes` accepts exactly what `getAddress` accepts, and then byte
   * `i` is the value of digits `2i` and `2i+1` of the given address in
   * whatever case it was written; together the 20 bytes are the address read
   * as a big-endian number.
   */
  lemma AddressBytesOfDigits(p: Primitives, address: string)
    ensures AddressBytes(p, address).Ok? <==> GetAddress(p, address).Ok?
    ensures AddressBytes(p, address).Ok? ==>
      && AddressBytes(p, address).value == PairBytes(Digits(address))
      && BigEndian(AddressBytes(p, address).value) == DigitsValue(Digits(address), 16)
  {
    if GetAddress(p, address).Ok? {
      var r := GetAddress(p, address).value;
      GetAddressCanonical(p, address);
      assert r[2..] == Digits(r);
      PairBytesIgnoreCase(Digits(address), Digits(r));
      PairBytesValue(Digits(address));
    }
  }

  /**
   * The key depends on the address only, not on how it is written: deriving
   * it from an address or from the checksummed form `getAddress` returns
   * gives the same key, and it fails exactly when `getAddress` throws.
   */
  lemma DeriveKeyCanonical(p: Primitives, address: string)
    ensures DeriveKey(p, address).Ok? <==> GetAddress(p, address).Ok?
    ensures GetAddress(p, address).Ok? ==> DeriveKey(p, GetAddress(p, address).value) == DeriveKey(p, address)
  {
    if GetAddress(p, address).Ok? {
      var r := GetAddress(p, address).value;
      GetAddressCanonical(p, address);
      AddressBytesOfDigits(p, address);
      AddressBytesOfDigits(p, r);
      PairBytesIgnoreCase(Digits(address), Digits(r));
    }
  }

  // ---------------------------------------------------------------------
  // Random addresses

  /** `byte.toString(16).padStart(2, '0')` */
  function ByteToHex(b: byte): (h: string) {
    PadStart(NatToHex(b), 2, '0')
  }

  /** The digits of each byte, joined. */
  function HexOfBytes(b: seq<byte>): (h: string)
    ensures |h| == 2 * |b|
    decreases |b|
  {
    if b == [] then []
    else
      ByteToHexDigits(b[0]);
      ByteToHex(b[0]) + HexOfBytes(b[1..])
  }

  lemma ByteToHexDigits(b: byte)
    ensures |ByteToHex(b)| == 2 && IsLowerHex(ByteToHex(b))
    ensures PairValue(ByteToHex(b)) == b
  {
    NatToHexDigits(b);
    NatToHexLength(b, 2);
    var h := NatToHex(b);
    if |h| == 1 {
      LeadingZeros("0", h, 16);
      assert ByteToHex(b) == "0" + h;
    }
  }

  /** A leading pair of digits becomes the first byte. */
  lemma PairBytesCons(head: string, tail: string)
    requires |head| == 2 && IsHexString(head)
    requires |tail| % 2 == 0 && IsHexString(tail)
    ensures IsHexString(head + tail)
    ensures PairBytes(head + tail) == [PairValue(head)] + PairBytes(tail)
  {
    var h := head + tail;
    assert h[0..2] == head;
    forall i | 1 <= i < |h| / 2
      ensures h[2 * i..2 * i + 2] == tail[2 * (i - 1)..2 * (i - 1) + 2]
    {
    }
  }

  /** Every byte becomes two lower-case digits that read back as the byte. */
  lemma HexOfBytesDigits(b: seq<byte>)
    ensures |HexOfBytes(b)| == 2 * |b| && IsLowerHex(HexOfBytes(b))
    ensures PairBytes(HexOfBytes(b)) == b
  {
    HexOfBytesShape(b);
    HexOfBytesPairs(b);
  }

  lemma {:induction false} HexOfBytesShape(b: seq<byte>)
    ensures |HexOfBytes(b)| == 2 * |b| && IsLowerHex(HexOfBytes(b))
    decreases |b|
  {
    if b != [] {
      var head, tail := ByteToHex(b[0]), HexOfBytes(b[1..]);
      ByteToHexDigits(b[0]);
      HexOfBytesShape(b[1..]);
      LowerHexConcat(head, tail);
    }
  }

  lemma {:induction false} HexOfBytesPairs(b: seq<byte>)
    ensures |HexOfBytes(b)| == 2 * |b| && IsHexString(HexOfBytes(b))
    ensures PairBytes(HexOfBytes(b)) == b
    decreases |b|
  {
    HexOfBytesShape(b);
    if b != [] {
      ByteToHexDigits(b[0]);
      HexOfBytesPairs(b[1..]);
      PairBytesCons(ByteToHex(b[0]), HexOfBytes(b[1..]));
      assert b == [b[0]] + b[1..];
    }
  }

  lemma LowerHexIsSingleCase(s: string)
    requires IsLowerHex(s)
    ensures !IsMixedCase(s)
  {
  }

  /** `generateRandomAddress()`: 20 random bytes as 40 hex digits, checksummed by `getAddress`. */
  function GenerateRandomAddress(p: Primitives, rng: RandomSource): (a: string)
    ensures |a| == DigitCount + 2 && GetAddress(p, a) == Ok(a)
  {
    var hex := HexOfBytes(RandomBytes(rng, AddressLength));
    HexOfBytesDigits(RandomBytes(rng, AddressLength));
    LowerHexIsSingleCase(hex);
    assert ("0x" + hex)[2..] == hex;
    GetAddressAcceptsSingleCase(p, "0x" + hex);
    GetAddressCanonical(p, "0x" + hex);
    GetAddress(p, "0x" + hex).value
  }

  /**
   * A generated address is already in checksummed form, and converting it
   * back to bytes (as key derivation does) gives exactly the random bytes.
   */
  lemma GeneratedAddressBytes(p: Primitives, rng: RandomSource)
    ensures GetAddress(p, GenerateRandomAddress(p, rng)) == Ok(GenerateRandomAddress(p, rng))
    ensures AddressBytes(p, GenerateRandomAddress(p, rng)) == Ok(RandomBytes(rng, AddressLength))
  {
    var random := RandomBytes(rng, AddressLength);
    var hex := HexOfBytes(random);
    var a := "0x" + hex;
    HexOfBytesDigits(random);
    assert a[2..] == hex;
    GetAddressCanonical(p, a);
    AddressBytesOfDigits(p, a);
    AddressBytesOfDigits(p, GenerateRandomAddress(p, rng));
    PairBytesIgnoreCase(hex, Digits(GenerateRandomAddress(p, rng)));
  }

  // ---------------------------------------------------------------------
  // The envelope

  /** The text envelope of a nonce and a ciphertext. */
  function Envelope(iv: seq<byte>, cipher: seq<byte>): (env: string) {
    Version + ":" + Encode(iv) + ":" + Encode(cipher)
  }

  /** `encryptWithAddressKey(plainText, address)`; `rng` stands for `crypto.getRandomValues`. */
  function EncryptWithAddressKey(p: Primitives, plainText: string, address: string, rng: RandomSource): (r: Result<string>)
    ensures plainText == "" ==> r == Ok("")
    ensures r.Err? ==> r.error == InvalidAddress || r.error == BadAddressChecksum
    ensures r.Ok? && plainText != "" ==> |r.value| >= 3 && r.value[..3] == "v1:"
  {
    if plainText == "" then Ok("")
    else
      var key :- DeriveKey(p, address);
      var iv := RandomBytes(rng, IvLength);
      var cipher := p.aesGcmEncrypt(key, iv, p.utf8Encode(plainText));
      Ok(Envelope(iv, cipher))
  }

  /** The check on `const [version, ivPart, dataPart] = payload.split(':')`: the tag is `v1` and the next two fields exist and are not empty. */
  predicate HasSupportedHeader(fields: seq<string>)
    requires |fields| >= 1
  {
    fields[0] == Version && |fields| >= 2 && fields[1] != "" && |fields| >= 3 && fields[2] != ""
  }

  /** `decryptWithAddressKey(payload, address)`. */
  function DecryptWithAddressKey(p: Primitives, payload: string, address: string): (r: Result<string>)
    ensures payload == "" ==> r == Ok("")
    ensures r.Err? ==> r.error in {UnsupportedPayloadFormat, InvalidAddress, BadAddressChecksum, InvalidCharacter, OperationFailed}
  {
    if payload == "" then Ok("")
    else
      var fields := Split(payload, ':');
      if !HasSupportedHeader(fields) then Err(UnsupportedPayloadFormat)
      else
        var key :- DeriveKey(p, address);
        var iv :- DecodeBase64(fields[1]);
        var cipher :- DecodeBase64(fields[2]);
        match p.aesGcmDecrypt(key, iv, cipher)
        case None => Err(OperationFailed)
        case Some(clear) => Ok(p.utf8Decode(clear))
  }

  /** A base64 field holds no ':' and is empty only for no bytes. */
  lemma EncodedField(b: seq<byte>)
    ensures ':' !in Encode(b)
    ensures b != [] ==> Encode(b) != []
  {
    EncodeShape(b);
    EncodeUnpaddedShape(b);
  }

  /** Splitting an envelope on ':' gives back the tag and the two base64 fields, which decode to the nonce and the ciphertext. */
  lemma EnvelopeFields(iv: seq<byte>, cipher: seq<byte>)
    requires iv != [] && cipher != []
    ensures Split(Envelope(iv, cipher), ':') == [Version, Encode(iv), Encode(cipher)]
    ensures HasSupportedHeader(Split(Envelope(iv, cipher), ':'))
    ensures DecodeBase64(Encode(iv)) == Ok(iv) && DecodeBase64(Encode(cipher)) == Ok(cipher)
  {
    EncodedField(iv);
    EncodedField(cipher);
    var fields := [Version, Encode(iv), Encode(cipher)];
    assert Join(fields[1..], ':') == Encode(iv) + [':'] + Encode(cipher) by {
      assert fields[1..][1..] == [Encode(cipher)];
    }
    assert Join(fields, ':') == Envelope(iv, cipher);
    SplitJoin(fields, ':');
    DecodeBase64Encode(iv);
    DecodeBase64Encode(cipher);
  }

  /** Encryption fails only for a non-empty plaintext under an address that `getAddress` rejects. */
  lemma EncryptOutcome(p: Primitives, plainText: string, address: string, rng: RandomSource)
    ensures EncryptWithAddressKey(p, plainText, address, rng).Ok? <==> plainText == "" || GetAddress(p, address).Ok?
    ensures EncryptWithAddressKey(p, plainText, address, rng) == Ok("") <==> plainText == ""
  {
    DeriveKeyCanonical(p, address);
  }

  /**
   * A non-empty encryption is `v1:` + base64 of a fresh 12-byte nonce + `:` +
   * base64 of the AES-GCM output, and it parses back into those parts.
   */
  lemma EncryptLayout(p: Primitives, plainText: string, address: string, rng: RandomSource)
    requires plainText != "" && DeriveKey(p, address).Ok?
    ensures var iv := RandomBytes(rng, IvLength);
      var cipher := p.aesGcmEncrypt(DeriveKey(p, address).value, iv, p.utf8Encode(plainText));
      && |iv| == 12
      && EncryptWithAddressKey(p, plainText, address, rng) == Ok(Envelope(iv, cipher))
      && Split(Envelope(iv, cipher), ':') == [Version, Encode(iv), Encode(cipher)]
  {
    var iv := RandomBytes(rng, IvLength);
    EnvelopeFields(iv, p.aesGcmEncrypt(DeriveKey(p, address).value, iv, p.utf8Encode(plainText)));
  }

  /** The empty string passes through both directions unchanged, whatever the address, valid or not: no key is derived. */
  lemma EmptyPassesThrough(p: Primitives, address: string, rng: RandomSource)
    ensures EncryptWithAddressKey(p, "", address, rng) == Ok("")
    ensures DecryptWithAddressKey(p, "", address) == Ok("")
  {
  }

  /**
   * Decryption throws "Unsupported payload format" exactly when the payload
   * is non-empty and its header is wrong: the tag is not `v1`, or the nonce
   * or ciphertext field is missing or empty. This is checked before the key
   * is derived, so it happens whatever the address.
   */
  lemma DecryptRejectsHeader(p: Primitives, payload: string, address: string)
    ensures DecryptWithAddressKey(p, payload, address) == Err(UnsupportedPayloadFormat) <==>
      payload != "" && !HasSupportedHeader(Split(payload, ':'))
  {
  }

  /**
   * Past the header check, the errors come in the order the code meets them:
   * a `getAddress` error first, even when a field is not base64; then
   * `atob`'s InvalidCharacterError for either field; then AES-GCM's
   * OperationError exactly when authentication fails. Otherwise the UTF-8
   * decoding of the plaintext is returned.
   */
  lemma DecryptErrors(p: Primitives, payload: string, address: string)
    requires payload != "" && HasSupportedHeader(Split(payload, ':'))
    ensures var f, r := Split(payload, ':'), DecryptWithAddressKey(p, payload, address);
      && (GetAddress(p, address).Err? ==> r == Err(GetAddress(p, address).error))
      && (GetAddress(p, address).Ok? && (DecodeBase64(f[1]).Err? || DecodeBase64(f[2]).Err?) ==>
            r == Err(InvalidCharacter))
      && (GetAddress(p, address).Ok? && DecodeBase64(f[1]).Ok? && DecodeBase64(f[2]).Ok? ==>
            var clear := p.aesGcmDecrypt(DeriveKey(p, address).value, DecodeBase64(f[1]).value, DecodeBase64(f[2]).value);
            && (r == Err(OperationFailed) <==> clear.None?)
            && (clear.Some? ==> r == Ok(p.utf8Decode(clear.value))))
  {
    DeriveKeyCanonical(p, address);
  }

  /** Only the first three fields are read: anything after a third ':' is ignored. */
  lemma DecryptIgnoresTrailingFields(p: Primitives, payload: string, extra: string, address: string)
    requires |Split(payload, ':')| >= 3
    ensures DecryptWithAddressKey(p, payload + ":" + extra, address) == DecryptWithAddressKey(p, payload, address)
  {
    SplitAppend(payload, extra, ':');
    var f, g := Split(payload, ':'), Split(payload + ":" + extra, ':');
    assert g[0] == f[0] && g[1] == f[1] && g[2] == f[2];
    assert payload != "";
    SameFieldsSameDecryption(p, payload + ":" + extra, payload, address);
  }

  /** Two non-empty payloads that agree on their first three fields decrypt alike. */
  lemma SameFieldsSameDecryption(p: Primitives, payload1: string, payload2: string, address: string)
    requires payload1 != "" && payload2 != ""
    requires |Split(payload1, ':')| >= 3 && |Split(payload2, ':')| >= 3
    requires Split(payload1, ':')[..3] == Split(payload2, ':')[..3]
    ensures DecryptWithAddressKey(p, payload1, address) == DecryptWithAddressKey(p, payload2, address)
  {
    var f, g := Split(payload1, ':'), Split(payload2, ':');
    assert f[0] == g[0] && f[1] == g[1] && f[2] == g[2] by {
      assert f[..3][0] == f[0] && f[..3][1] == f[1] && f[..3][2] == f[2];
    }
  }

  /**
   * Round trip: if AES-GCM round-trips and UTF-8 round-trips this plaintext,
   * decrypting an envelope with the address it was encrypted under gives the
   * plaintext back.
   */
  lemma RoundTrip(p: Primitives, plainText: string, address: string, rng: RandomSource)
    requires AesGcmRoundTrips(p) && Utf8RoundTrips(p, plainText)
    requires EncryptWithAddressKey(p, plainText, address, rng).Ok?
    ensures DecryptWithAddressKey(p, EncryptWithAddressKey(p, plainText, address, rng).value, address) == Ok(plainText)
  {
    if plainText != "" {
      var key := DeriveKey(p, address).value;
      var iv := RandomBytes(rng, IvLength);
      var cipher := p.aesGcmEncrypt(key, iv, p.utf8Encode(plainText));
      EnvelopeFields(iv, cipher);
      assert p.aesGcmDecrypt(key, iv, cipher) == Some(p.utf8Encode(plainText));
    }
  }

  /** Two encryptions that draw different nonces give different envelopes, even for the same plaintext and address. */
  lemma FreshNonceFreshEnvelope(p: Primitives, plainText: string, address: string, rng1: RandomSource, rng2: RandomSource)
    requires plainText != ""
    requires EncryptWithAddressKey(p, plainText, address, rng1).Ok?
    requires RandomBytes(rng1, IvLength) != RandomBytes(rng2, IvLength)
    ensures EncryptWithAddressKey(p, plainText, address, rng2).Ok?
    ensures EncryptWithAddressKey(p, plainText, address, rng1) != EncryptWithAddressKey(p, plainText, address, rng2)
  {
    var key := DeriveKey(p, address).value;
    var iv1, iv2 := RandomBytes(rng1, IvLength), RandomBytes(rng2, IvLength);
    var c1 := p.aesGcmEncrypt(key, iv1, p.utf8Encode(plainText));
    var c2 := p.aesGcmEncrypt(key, iv2, p.utf8Encode(plainText));
    EnvelopeFields(iv1, c1);
    EnvelopeFields(iv2, c2);
    if Envelope(iv1, c1) == Envelope(iv2, c2) {
      EncodeInjective(iv1, iv2);
    }
  }

  // ---------------------------------------------------------------------
  // Normalising the decrypted seed

  /** A JavaScript number: an integral value, or anything else (fractions, NaN, the infinities). */
  datatype JsNumber = Integral(value: int) | NonIntegral

  /** The `unknown` value the decryption service returns, by `typeof`. */
  datatype JsValue =
    | StringValue(s: string)
    | NumberValue(n: JsNumber)
    | BigIntValue(b: int)
    | OtherValue  // undefined, null, a boolean, an object, a symbol

  /** `BigInt(number)`: a RangeError unless the number is integral. */
  function NumberToBigInt(n: JsNumber): (big: Result<int>) {
    match n
    case Integral(v) => Ok(v)
    case NonIntegral => Err(BigIntRange)
  }

  /** ``getAddress(`0x${hex.padStart(40, '0')}`)`` */
  function PaddedAddress(p: Primitives, hex: string): (a: Result<string>) {
    GetAddress(p, "0x" + PadStart(hex, DigitCount, '0'))
  }

  /** The `catch`: any exception becomes the empty string. */
  function OrEmpty(r: Result<string>): (s: string) {
    match r
    case Ok(a) => a
    case Err(_) => ""
  }

  /** The bigint branch: `value.toString(16)`, padded and checksummed. */
  function BigIntAddress(p: Primitives, n: int): (a: string) {
    OrEmpty(PaddedAddress(p, ToHexString(n)))
  }

  /** The string branch: after `0x` the digits are padded as they are; any other string goes through `BigInt(value)` first. */
  function StringAddress(p: Primitives, s: string): (a: string) {
    if StartsWith(s, "0x") then OrEmpty(PaddedAddress(p, s[2..]))
    else
      match StringToBigInt(s)
      case Ok(n) => BigIntAddress(p, n)
      case Err(_) => ""
  }

  /** The number branch: `BigInt(value)`, then as a bigint. */
  function NumberAddress(p: Primitives, x: JsNumber): (a: string) {
    match NumberToBigInt(x)
    case Ok(n) => BigIntAddress(p, n)
    case Err(_) => ""
  }

  /** `normalizeDecryptedAddress(value)`: dispatch on `typeof value`; any other type gives "". */
  function NormalizeDecryptedAddress(p: Primitives, value: JsValue): (r: string)
    ensures r == "" || (|r| == DigitCount + 2 && r[..2] == "0x")
  {
    match value
    case StringValue(s) => StringAddress(p, s)
    case NumberValue(x) => NumberAddress(p, x)
    case BigIntValue(n) => BigIntAddress(p, n)
    case OtherValue => ""
  }

  /** Zeros in front add no letter, so they cannot make a string mixed-case. */
  lemma ZerosAddNoCase(z: string, h: string)
    requires forall i :: 0 <= i < |z| ==> z[i] == '0'
    ensures IsMixedCase(z + h) ==> IsMixedCase(h)
  {
    var s := z + h;
    if IsMixedCase(s) {
      var i :| 0 <= i < |s| && 'A' <= s[i] <= 'F';
      var j :| 0 <= j < |s| && 'a' <= s[j] <= 'f';
      assert s[i] == h[i - |z|] && s[j] == h[j - |z|];
    }
  }

  /** Padding with zeros keeps a run of hex digits a run of hex digits, with the same value. */
  lemma PadStartValue(h: string)
    requires IsHexString(h) && |h| <= DigitCount
    ensures IsHexString(PadStart(h, DigitCount, '0'))
    ensures DigitsValue(PadStart(h, DigitCount, '0'), 16) == DigitsValue(h, 16)
  {
    PadStartZeros(h, DigitCount, '0');
    LeadingZeros(seq(DigitCount - |h|, _ => '0'), h, 16);
  }

  lemma PadStartSingleCase(h: string)
    requires !IsMixedCase(h) && |h| <= DigitCount
    ensures !IsMixedCase(PadStart(h, DigitCount, '0'))
  {
    PadStartZeros(h, DigitCount, '0');
    ZerosAddNoCase(seq(DigitCount - |h|, _ => '0'), h);
  }

  /** Up to 40 hex digits in one case are accepted, and the address reads back as their value. */
  lemma PaddedAddressAccepted(p: Primitives, h: string)
    requires IsHexString(h) && !IsMixedCase(h) && |h| <= DigitCount
    ensures PaddedAddress(p, h).Ok?
    ensures var r := PaddedAddress(p, h).value;
      GetAddress(p, r) == Ok(r) && DigitsValue(Digits(r), 16) == DigitsValue(h, 16)
  {
    var padded := PadStart(h, DigitCount, '0');
    var a := "0x" + padded;
    PadStartValue(h);
    PadStartSingleCase(h);
    assert a[..2] == "0x" && a[2..] == padded;
    GetAddressAcceptsSingleCase(p, a);
    GetAddressCanonical(p, a);
    var r := PaddedAddress(p, h).value;
    SameDigitsSameValue(padded, Digits(r), 16);
  }

  /** More than 40 characters, or a character that is not a hex digit, is rejected. */
  lemma PaddedAddressRejected(p: Primitives, h: string)
    requires |h| > DigitCount || !IsHexString(h)
    ensures PaddedAddress(p, h).Err?
  {
    var padded := PadStart(h, DigitCount, '0');
    var a := "0x" + padded;
    assert a[2..] == padded;
    if |h| <= DigitCount {
      var i :| 0 <= i < |h| && DigitValue(h[i]) >= 16;
      assert padded[DigitCount - |h| + i] == h[i];
    }
  }

  /** Whatever the input, the result is the empty string or an address already in checksummed form. */
  lemma NormalizeIsCanonical(p: Primitives, value: JsValue)
    ensures IsNormalized(p, NormalizeDecryptedAddress(p, value))
  {
    match value
    case StringValue(s) => StringAddressCanonical(p, s);
    case NumberValue(x) => NumberAddressCanonical(p, x);
    case BigIntValue(n) => PaddedAddressCanonical(p, ToHexString(n));
    case OtherValue =>
  }

  /** A string without `0x` that `BigInt` rejects gives "": the SyntaxError is caught. */
  lemma NormalizeUnparsableString(p: Primitives, s: string)
    requires !StartsWith(s, "0x") && StringToBigInt(s).Err?
    ensures NormalizeDecryptedAddress(p, StringValue(s)) == ""
  {
  }

  /**
   * A string without `0x` that holds, once trimmed and past any sign or
   * radix prefix, a character that is no decimal digit gives "".
   */
  lemma NormalizeNonNumericString(p: Primitives, s: string, i: nat)
    requires !StartsWith(s, "0x") && !HasRadixPrefix(Trim(s))
    requires i < |Trim(s)| && DigitValue(Trim(s)[i]) >= 10
    requires i == 0 ==> Trim(s)[0] != '+' && Trim(s)[0] != '-'
    ensures NormalizeDecryptedAddress(p, StringValue(s)) == ""
  {
    StringToBigIntRejects(s, i);
    NormalizeUnparsableString(p, s);
  }

  /** For instance, a word gives "". */
  lemma NormalizeWord(p: Primitives)
    ensures NormalizeDecryptedAddress(p, StringValue("hello")) == ""
  {
    TrimUntouched("hello");
    NormalizeNonNumericString(p, "hello", 0);
  }

  /** Zeros in front keep both cases that a string already has. */
  lemma ZerosKeepCase(z: string, h: string)
    requires IsMixedCase(h)
    ensures IsMixedCase(z + h)
  {
    var s := z + h;
    var i :| 0 <= i < |h| && 'A' <= h[i] <= 'F';
    var j :| 0 <= j < |h| && 'a' <= h[j] <= 'f';
    assert s[|z| + i] == h[i] && s[|z| + j] == h[j];
  }

  /**
   * After `0x`, up to 40 hex digits in mixed case give an address exactly
   * when, padded to 40, they already carry the EIP-55 checksum; otherwise
   * `getAddress` throws and the result is "".
   */
  lemma NormalizeMixedCaseHex(p: Primitives, h: string)
    requires IsHexString(h) && |h| <= DigitCount && IsMixedCase(h)
    ensures NormalizeDecryptedAddress(p, StringValue("0x" + h)) != "" <==>
      Checksum(p, ToLower(PadStart(h, DigitCount, '0'))) == PadStart(h, DigitCount, '0')
  {
    var s := "0x" + h;
    assert StartsWith(s, "0x") && s[2..] == h;
    var padded := PadStart(h, DigitCount, '0');
    var a := "0x" + padded;
    PadStartValue(h);
    PadStartZeros(h, DigitCount, '0');
    ZerosKeepCase(seq(DigitCount - |h|, _ => '0'), h);
    assert a[..2] == "0x" && a[2..] == padded;
    assert Digits(a) == padded;
    GetAddressCanonical(p, a);
  }

  /** A value that is not a string, a number or a bigint gives "". */
  lemma NormalizeOtherType(p: Primitives)
    ensures NormalizeDecryptedAddress(p, OtherValue) == ""
  {
  }

  /** The empty string, or an address that `getAddress` returns unchanged. */
  predicate IsNormalized(p: Primitives, r: string) {
    r == "" || (|r| == DigitCount + 2 && GetAddress(p, r) == Ok(r))
  }

  lemma PaddedAddressCanonical(p: Primitives, h: string)
    ensures IsNormalized(p, OrEmpty(PaddedAddress(p, h)))
  {
    GetAddressCanonical(p, "0x" + PadStart(h, DigitCount, '0'));
  }

  lemma StringAddressCanonical(p: Primitives, s: string)
    ensures IsNormalized(p, StringAddress(p, s))
  {
    if StartsWith(s, "0x") {
      PaddedAddressCanonical(p, s[2..]);
    } else if StringToBigInt(s).Ok? {
      PaddedAddressCanonical(p, ToHexString(StringToBigInt(s).value));
    }
  }

  lemma NumberAddressCanonical(p: Primitives, x: JsNumber)
    ensures IsNormalized(p, NumberAddress(p, x))
  {
    if x.Integral? {
      PaddedAddressCanonical(p, ToHexString(x.value));
    }
  }

  /**
   * A bigint gives an address exactly when it lies in [0, 16^40), that is,
   * fits in 20 bytes; the address's bytes are then the bigint, big-endian.
   */
  lemma NormalizeBigInt(p: Primitives, v: int)
    ensures NormalizeDecryptedAddress(p, BigIntValue(v)) != "" <==> 0 <= v < Pow(16, DigitCount)
    ensures var r := NormalizeDecryptedAddress(p, BigIntValue(v));
      r != "" ==> GetAddress(p, r) == Ok(r) && AddressBytes(p, r).Ok? && BigEndian(AddressBytes(p, r).value) == v
  {
    if v < 0 {
      NormalizeNegativeBigInt(p, v);
    } else {
      NormalizeNaturalBigInt(p, v);
    }
  }

  /** A negative bigint prints with a minus sign, which is no hex digit. */
  lemma NormalizeNegativeBigInt(p: Primitives, v: int)
    requires v < 0
    ensures NormalizeDecryptedAddress(p, BigIntValue(v)) == ""
  {
    assert NormalizeDecryptedAddress(p, BigIntValue(v)) == BigIntAddress(p, v);
    var h := ToHexString(v);
    assert DigitValue(h[0]) >= 16;
    PaddedAddressRejected(p, h);
  }

  lemma NormalizeNaturalBigInt(p: Primitives, v: int)
    requires v >= 0
    ensures NormalizeDecryptedAddress(p, BigIntValue(v)) != "" <==> v < Pow(16, DigitCount)
    ensures var r := NormalizeDecryptedAddress(p, BigIntValue(v));
      r != "" ==> GetAddress(p, r) == Ok(r) && AddressBytes(p, r).Ok? && BigEndian(AddressBytes(p, r).value) == v
  {
    assert NormalizeDecryptedAddress(p, BigIntValue(v)) == BigIntAddress(p, v);
    BigIntAddressNatural(p, v);
  }

  lemma BigIntAddressNatural(p: Primitives, v: nat)
    ensures BigIntAddress(p, v) != "" <==> v < Pow(16, DigitCount)
    ensures var r := BigIntAddress(p, v);
      r != "" ==> GetAddress(p, r) == Ok(r) && AddressBytes(p, r).Ok? && BigEndian(AddressBytes(p, r).value) == v
  {
    var h := NatToHex(v);
    assert ToHexString(v) == h;
    NatToHexDigits(v);
    NatToHexLength(v, DigitCount);
    if |h| <= DigitCount {
      LowerHexIsSingleCase(h);
      PaddedAddressAccepted(p, h);
      var r := PaddedAddress(p, h).value;
      assert BigIntAddress(p, v) == r;
      AddressBytesOfDigits(p, r);
    } else {
      PaddedAddressRejected(p, h);
    }
  }

  /** An integral number behaves as the bigint of the same value. */
  lemma NormalizeIntegralNumber(p: Primitives, n: int)
    ensures NormalizeDecryptedAddress(p, NumberValue(Integral(n))) == NormalizeDecryptedAddress(p, BigIntValue(n))
  {
  }

  /** A number that is not an integer (a fraction, NaN, an infinity) makes `BigInt` throw, so it gives "". */
  lemma NormalizeNonIntegralNumber(p: Primitives)
    ensures NormalizeDecryptedAddress(p, NumberValue(NonIntegral)) == ""
  {
  }

  /** A string of decimal digits behaves as the bigint it writes. */
  lemma NormalizeDecimalString(p: Primitives, s: string)
    requires s != [] && AllDigits(s, 10)
    ensures NormalizeDecryptedAddress(p, StringValue(s)) == NormalizeDecryptedAddress(p, BigIntValue(DigitsValue(s, 10)))
  {
    DecimalHasNoPrefix(s);
    DecimalStringToBigInt(s);
    StringAddressOfParsed(p, s, DigitsValue(s, 10));
  }

  lemma StringAddressOfParsed(p: Primitives, s: string, n: int)
    requires !StartsWith(s, "0x") && StringToBigInt(s) == Ok(n)
    ensures StringAddress(p, s) == BigIntAddress(p, n)
  {
  }

  lemma DecimalHasNoPrefix(s: string)
    requires AllDigits(s, 10)
    ensures !StartsWith(s, "0x")
  {
    if |s| >= 2 {
      assert DigitValue(s[1]) < 10;
    }
  }

  /**
   * A `0x` string is padded, not parsed: up to 40 hex digits in one case give
   * the address of that value; more than 40 characters, or a non-hex
   * character, give "".
   */
  lemma NormalizeHexString(p: Primitives, h: string)
    ensures |h| > DigitCount || !IsHexString(h) ==> NormalizeDecryptedAddress(p, StringValue("0x" + h)) == ""
    ensures IsHexString(h) && !IsMixedCase(h) && |h| <= DigitCount ==>
      var r := NormalizeDecryptedAddress(p, StringValue("0x" + h));
      r != "" && GetAddress(p, r) == Ok(r) && DigitsValue(Digits(r), 16) == DigitsValue(h, 16)
  {
    var s := "0x" + h;
    assert StartsWith(s, "0x") && s[2..] == h;
    if |h| > DigitCount || !IsHexString(h) {
      PaddedAddressRejected(p, h);
    } else if !IsMixedCase(h) {
      PaddedAddressAccepted(p, h);
    }
  }

  /** The empty string, and any string of whitespace only, converts to 0n and so gives the zero address, not "". */
  lemma NormalizeBlankString(p: Primitives, s: string)
    requires forall i :: 0 <= i < |s| ==> IsJsWhitespace(s[i])
    ensures NormalizeDecryptedAddress(p, StringValue(s)) == NormalizeDecryptedAddress(p, BigIntValue(0))
    ensures var r := NormalizeDecryptedAddress(p, StringValue(s));
      r != "" && AddressBytes(p, r) == Ok(seq(AddressLength, _ => 0))
  {
    BlankStringToBigInt(s);
    assert !StartsWith(s, "0x");
    PowPositive(16, DigitCount);
    NormalizeBigInt(p, 0);
    var b := AddressBytes(p, NormalizeDecryptedAddress(p, BigIntValue(0))).value;
    BigEndianZero(b);
  }

  lemma {:induction false} BigEndianZero(b: seq<byte>)
    requires BigEndian(b) == 0
    ensures b == seq(|b|, _ => 0)
    decreases |b|
  {
    if b != [] {
      BigEndianZero(b[..|b| - 1]);
      assert b == b[..|b| - 1] + [b[|b| - 1]];
    }
  }
}
