# Document-vault envelope codec

This project models the client-side envelope codec of the document vault
(`src/src/lib/vaultCrypto.ts`). A document body is encrypted with AES-GCM
under a key derived from an address-shaped seed. It travels as the text
envelope `v1:<base64 nonce>:<base64 ciphertext>`. The seed comes back from the
confidential-compute service in one of several encodings, and
`normalizeDecryptedAddress` first turns it into a checksummed address.

The model has seven modules:

- `Js` (`js.dfy`): bytes, the exceptions the codec can raise, and `Result`
  for "returns or throws".
- `JsText` (`text.dfy`): `split` on one character, `padStart`, `startsWith`,
  ASCII case mapping and `trim`.
- `JsNumeric` (`numeric.dfy`): digit values, `toString(16)` and
  `BigInt(string)`. The last is ECMAScript's StringToBigInt: whitespace is
  trimmed, `0x`/`0o`/`0b` prefixes are read, a sign is allowed, and the empty
  string is 0.
- `Base64` (`base64.dfy`): `btoa`, which writes the encoding of section 4 of
  RFC 4648, and `atob`, which reads with the HTML standard's forgiving-base64
  decode.
- `Platform` (`platform.dfy`): the primitives the codec calls but does not
  implement. SHA-256, Keccak-256, AES-GCM and UTF-8 are fields of a
  `Primitives` value. `crypto.getRandomValues` is a separate `RandomSource`
  parameter, a function from positions to bytes. The facts a proof needs
  about the primitives are named hypotheses, never axioms.
  `AesGcmRoundTrips` is about every key, every 12-byte nonce and every
  message.
  `Utf8RoundTrips` is about one string.
- `EthAddress` (`address.dfy`): ethers `getAddress`, covering the shape check,
  the EIP-55 checksum and the rejection of a bad mixed-case checksum.
- `VaultCrypto` (`vault_crypto.dfy`): the codec itself.

The codec's forms in the model:

- The loops of `toBase64`, `fromBase64` and `addressToBytes` are methods over
  arrays, proved against specification functions (`Encode`, `DecodeBase64`,
  `PairBytes`).
- Everything else is a pure function.
- Exceptions are `Err` results. The `catch` of `normalizeDecryptedAddress`
  maps every `Err` to `""`.

Behaviour a caller might not expect, which the model keeps as the code has it:

- `normalizeDecryptedAddress("")` does not return the empty sentinel. The same
  holds for any whitespace-only string: `BigInt("")` is `0n`, so the result is
  the zero address (`NormalizeBlankString`).
- `"0x"` alone does not return the empty sentinel either. It takes the `0x`
  branch with no digits, which pads to forty zeros and so also gives the zero
  address (`NormalizeHexString` with `h == ""`).
- The envelope check does not require exactly three fields. Anything after a
  third `:` is ignored (`DecryptIgnoresTrailingFields`).
- Decryption derives the key before it decodes the two base64 fields. An
  invalid address is therefore reported even when the fields are not valid
  base64 (`DecryptErrors`).

## Model

| member | source | states |
|---|---|---|
| `VaultCrypto.ToBase64` | src/src/lib/vaultCrypto.ts:6-12 | the returned string is the RFC 4648 base64 encoding of the array's bytes; `btoa` never throws on the binary string the loop builds |
| `VaultCrypto.FromBase64` | src/src/lib/vaultCrypto.ts:14-21 | returns a value exactly when `atob` accepts the text, and then a fresh array holding the decoded bytes; otherwise it throws `atob`'s InvalidCharacterError |
| `VaultCrypto.CharCodes` | src/src/lib/vaultCrypto.ts:16-19 | the loop fills a fresh array whose element `i` is the code of character `i` of the binary string |
| `VaultCrypto.DecodeBase64` | src/src/lib/vaultCrypto.ts:14-21 | what `fromBase64` returns, `atob` followed by the character-code loop; the only exception it can throw is InvalidCharacterError; `DecodeBase64Encode` proves it inverts `toBase64` |
| `VaultCrypto.DecodeBase64Encode` | src/src/lib/vaultCrypto.ts:6-21 | `fromBase64(toBase64(b))` gives back `b` for every byte string |
| `Base64.DecodeEncode` | src/src/lib/vaultCrypto.ts:11-15 | forgiving-base64 decoding of an RFC 4648 encoding succeeds and gives back the bytes |
| `Base64.AtobBtoa` | src/src/lib/vaultCrypto.ts:11-15 | `btoa` accepts every binary string, and `atob` of its output returns that binary string |
| `Base64.BinaryRoundTrip` | src/src/lib/vaultCrypto.ts:9-18 | reading the character codes of the string built with `String.fromCharCode` per byte gives the bytes back |
| `Base64.EncodeInjective` | src/src/lib/vaultCrypto.ts:56 | two byte strings with the same base64 encoding are equal |
| `Base64.EncodeShape` | src/src/lib/vaultCrypto.ts:11 | an encoding is a whole number of four-character quanta, made only of alphabet characters and `=` |
| `Base64.EncodeUnpaddedShape` | src/src/lib/vaultCrypto.ts:11 | before padding, the encoding holds only alphabet characters; its length modulo 4 is 0, 2 or 3 as the byte count modulo 3 is 0, 1 or 2; it is non-empty for non-empty input |
| `Base64.DecodeEncodeGroup` | src/src/lib/vaultCrypto.ts:11-15 | one group of one to three bytes comes back out of its two to four characters |
| `Base64.DecodeEncodeUnpadded` | src/src/lib/vaultCrypto.ts:11-15 | decoding the unpadded characters group by group gives back all the bytes |
| `Base64.StripPaddingAppend` | src/src/lib/vaultCrypto.ts:15 | `atob` drops exactly the `=` padding that `btoa` appended |
| `Base64.RemoveAsciiWhitespaceUntouched` | src/src/lib/vaultCrypto.ts:15 | whitespace removal leaves a string without ASCII whitespace unchanged |
| `Base64.Btoa` | src/src/lib/vaultCrypto.ts:11 | `btoa` succeeds exactly on binary strings, throws InvalidCharacterError otherwise, and writes whole four-character quanta; `AtobBtoa` proves `atob` inverts it |
| `Base64.Atob` | src/src/lib/vaultCrypto.ts:15 | `atob` returns a binary string or throws InvalidCharacterError; `AtobBtoa` and `DecodeEncode` prove it inverts `btoa` |
| `Base64.ForgivingDecode` | src/src/lib/vaultCrypto.ts:15 | `atob` throws only InvalidCharacterError |
| `VaultCrypto.PairValue` | src/src/lib/vaultCrypto.ts:28 | `parseInt` of two hex digits is 16 times the first digit's value plus the second's |
| `VaultCrypto.PairBytes` | src/src/lib/vaultCrypto.ts:26-30 | the bytes the loop of `addressToBytes` writes, one per pair of digits, half as many as the digits; `PairBytesValue` and `PairBytesIgnoreCase` say what they are |
| `VaultCrypto.PairsToBytes` | src/src/lib/vaultCrypto.ts:26-30 | the loop fills a fresh array of half the digit count, whose byte `i` is the value of digits `2i` and `2i+1` |
| `VaultCrypto.AddressToBytes` | src/src/lib/vaultCrypto.ts:23-31 | throws exactly when `getAddress` throws, with its exception; otherwise returns a fresh array holding the address bytes |
| `VaultCrypto.AddressBytes` | src/src/lib/vaultCrypto.ts:23-31 | a successful conversion gives exactly 20 bytes |
| `VaultCrypto.AddressBytesOfDigits` | src/src/lib/vaultCrypto.ts:23-31 | succeeds exactly when `getAddress` accepts the address; byte `i` is then the value of digits `2i`..`2i+1` of the address as written, in either case; the 20 bytes read big-endian are the number the 40 digits write |
| `VaultCrypto.PairBytesValue` | src/src/lib/vaultCrypto.ts:26-30 | the bytes of an even-length hex string, read big-endian, are the number the digits write |
| `VaultCrypto.PairBytesIgnoreCase` | src/src/lib/vaultCrypto.ts:24-28 | hex strings whose digits have the same values, such as an address and its checksummed form, give the same bytes |
| `VaultCrypto.DeriveKey` | src/src/lib/vaultCrypto.ts:33-37 | key derivation fails only with one of the two `getAddress` errors |
| `VaultCrypto.DeriveKeyCanonical` | src/src/lib/vaultCrypto.ts:33-37 | a key is derived exactly when `getAddress` accepts the address; the key does not depend on how the address is written, so the checksummed form gives the same key |
| `EthAddress.GetAddress` | src/src/lib/vaultCrypto.ts:24 | an accepted address is returned as `0x` plus 40 hex digits; a rejection is either "invalid address" or "bad checksum" |
| `EthAddress.GetAddressCanonical` | src/src/lib/vaultCrypto.ts:24 | accepts exactly the well-shaped strings whose digits are in one case or already carry the EIP-55 checksum; the result has the same digits up to case, with the same values, and is itself returned unchanged |
| `EthAddress.GetAddressAcceptsSingleCase` | src/src/lib/vaultCrypto.ts:44 | a well-shaped address in a single case is always accepted, and comes back checksummed |
| `EthAddress.Checksum` | src/src/lib/vaultCrypto.ts:24 | the EIP-55 checksummed digits of a 40-digit address are again 40 digits; `ChecksumDigits` and `ChecksumOnlyChangesCase` say which digits are upper-cased and that only case changes |
| `EthAddress.ChecksumOnlyChangesCase` | src/src/lib/vaultCrypto.ts:24 | the EIP-55 checksum changes only letter case: lower-casing it gives the digits back, and every digit keeps its value |
| `EthAddress.ChecksumDigits` | src/src/lib/vaultCrypto.ts:24 | digit `i` of the checksummed address is digit `i` of the lower-case address, upper-cased exactly when nibble `i` of its Keccak-256 hash is at least 8 |
| `EthAddress.LowerHexConcat` | src/src/lib/vaultCrypto.ts:41-43 | joining lower-case hex strings gives a lower-case hex string |
| `VaultCrypto.ByteToHexDigits` | src/src/lib/vaultCrypto.ts:42 | `byte.toString(16).padStart(2, '0')` is two lower-case hex digits that read back as the byte |
| `VaultCrypto.HexOfBytes` | src/src/lib/vaultCrypto.ts:41-43 | the digits of `n` bytes, joined, are `2n` characters; `HexOfBytesDigits` proves they are lower-case hex that converts back to the bytes |
| `VaultCrypto.HexOfBytesDigits` | src/src/lib/vaultCrypto.ts:41-43 | the joined digits of `n` bytes are `2n` lower-case hex digits, and converting them back pair by pair gives the bytes |
| `VaultCrypto.HexOfBytesShape` | src/src/lib/vaultCrypto.ts:41-43 | the joined digits of `n` bytes are `2n` lower-case hex digits |
| `VaultCrypto.HexOfBytesPairs` | src/src/lib/vaultCrypto.ts:41-43 | converting the joined digits back pair by pair gives the bytes |
| `VaultCrypto.GenerateRandomAddress` | src/src/lib/vaultCrypto.ts:39-45 | `getAddress` never throws on the 20 random bytes as lower-case hex; the result is a 42-character address that `getAddress` returns unchanged; `GeneratedAddressBytes` proves its bytes are the random bytes |
| `VaultCrypto.GeneratedAddressBytes` | src/src/lib/vaultCrypto.ts:39-45 | a generated address is already in checksummed form, and `addressToBytes` of it gives exactly the 20 random bytes |
| `VaultCrypto.EncryptWithAddressKey` | src/src/lib/vaultCrypto.ts:47-57 | the empty plaintext gives `""`; the only exceptions are the two `getAddress` errors; a non-empty encryption starts with `v1:`; `EncryptOutcome`, `EncryptLayout` and `RoundTrip` state the rest |
| `VaultCrypto.DecryptWithAddressKey` | src/src/lib/vaultCrypto.ts:59-72 | the empty payload gives `""`; it throws only "Unsupported payload format", a `getAddress` error, `atob`'s InvalidCharacterError or AES-GCM's OperationError; `DecryptRejectsHeader` states when the header error is thrown, `DecryptErrors` when each of the other three is, `DecryptIgnoresTrailingFields` that fields past the third are ignored, and `RoundTrip` when the plaintext comes back |
| `VaultCrypto.EncryptOutcome` | src/src/lib/vaultCrypto.ts:47-57 | encryption throws exactly for a non-empty plaintext under an address that `getAddress` rejects; it returns `""` exactly for the empty plaintext |
| `VaultCrypto.EncryptLayout` | src/src/lib/vaultCrypto.ts:51-56 | a non-empty encryption is `v1:` + base64 of a 12-byte nonce drawn from the random source + `:` + base64 of the AES-GCM output, and splitting it on `:` gives those three parts |
| `VaultCrypto.EmptyPassesThrough` | src/src/lib/vaultCrypto.ts:47-62 | the empty string encrypts and decrypts to the empty string whatever the address, valid or not |
| `VaultCrypto.EncodedField` | src/src/lib/vaultCrypto.ts:56 | a base64 field holds no `:`, and is non-empty for non-empty bytes |
| `VaultCrypto.EnvelopeFields` | src/src/lib/vaultCrypto.ts:56-69 | an envelope of a non-empty nonce and ciphertext splits into the tag and the two fields, passes the header check, and both fields decode to the bytes they encode |
| `VaultCrypto.DecryptRejectsHeader` | src/src/lib/vaultCrypto.ts:59-66 | decryption throws "Unsupported payload format" exactly when the payload is non-empty and the tag is not `v1` or the nonce or ciphertext field is missing or empty, whatever the address |
| `VaultCrypto.DecryptErrors` | src/src/lib/vaultCrypto.ts:67-72 | past a good header, a `getAddress` rejection is thrown first, even when a field is not base64; then InvalidCharacterError when either field fails `atob`; then OperationError exactly when AES-GCM authentication fails; otherwise the UTF-8 decoding of the plaintext is returned |
| `VaultCrypto.DecryptIgnoresTrailingFields` | src/src/lib/vaultCrypto.ts:63-64 | appending `:` and anything to a payload of three or more fields does not change what decryption returns or throws |
| `VaultCrypto.SameFieldsSameDecryption` | src/src/lib/vaultCrypto.ts:63-71 | two non-empty payloads whose first three fields agree decrypt alike |
| `VaultCrypto.RoundTrip` | src/src/lib/vaultCrypto.ts:47-72 | if AES-GCM round-trips, and UTF-8 encoding then decoding gives back this plaintext, decrypting a successful encryption with the same address gives the plaintext back |
| `VaultCrypto.FreshNonceFreshEnvelope` | src/src/lib/vaultCrypto.ts:52-56 | two encryptions of the same plaintext under the same address that draw different nonces give different envelopes |
| `VaultCrypto.NormalizeDecryptedAddress` | src/src/lib/vaultCrypto.ts:74-96 | the result is `""` or `0x` followed by 40 characters; the `Normalize…` lemmas below say which, type by type |
| `VaultCrypto.NormalizeIsCanonical` | src/src/lib/vaultCrypto.ts:74-96 | whatever the value, the result is `""` or a 42-character address that `getAddress` returns unchanged |
| `VaultCrypto.NormalizeUnparsableString` | src/src/lib/vaultCrypto.ts:81-95 | a string without `0x` that `BigInt` rejects gives `""`, the SyntaxError being caught |
| `VaultCrypto.NormalizeNonNumericString` | src/src/lib/vaultCrypto.ts:81-95 | a string without `0x` that, trimmed, has no radix prefix and holds a character that is no decimal digit (other than a leading sign) gives `""` |
| `VaultCrypto.NormalizeWord` | src/src/lib/vaultCrypto.ts:81-95 | `"hello"` gives `""` |
| `VaultCrypto.NormalizeMixedCaseHex` | src/src/lib/vaultCrypto.ts:77-80 | after `0x`, up to 40 hex digits in mixed case give an address exactly when, zero-padded to 40, they already carry the EIP-55 checksum; otherwise `""` |
| `VaultCrypto.NormalizeOtherType` | src/src/lib/vaultCrypto.ts:88-95 | a value that is not a string, number or bigint gives `""` |
| `VaultCrypto.NormalizeBigInt` | src/src/lib/vaultCrypto.ts:88-91 | a bigint gives an address exactly when it lies in `[0, 16^40)`; that address is checksummed, and its 20 bytes read big-endian are the bigint |
| `VaultCrypto.NormalizeNegativeBigInt` | src/src/lib/vaultCrypto.ts:89-90 | a negative bigint prints with a minus sign, so `getAddress` throws and the result is `""` |
| `VaultCrypto.BigIntAddressNatural` | src/src/lib/vaultCrypto.ts:89-90 | a non-negative bigint gives an address exactly when it has at most 40 hex digits, and the address's bytes are its value |
| `VaultCrypto.NormalizeIntegralNumber` | src/src/lib/vaultCrypto.ts:84-87 | an integral number gives what the bigint of the same value gives |
| `VaultCrypto.NormalizeNonIntegralNumber` | src/src/lib/vaultCrypto.ts:84-95 | a fraction, NaN or an infinity makes `BigInt` throw, so the result is `""` |
| `VaultCrypto.NormalizeDecimalString` | src/src/lib/vaultCrypto.ts:81-82 | a string of decimal digits gives what the bigint it writes gives |
| `VaultCrypto.NormalizeBlankString` | src/src/lib/vaultCrypto.ts:81-82 | the empty or whitespace-only string gives what `0n` gives: the zero address, whose bytes are 20 zeros |
| `VaultCrypto.NormalizeHexString` | src/src/lib/vaultCrypto.ts:77-80 | after `0x`, up to 40 hex digits in one case give the checksummed address of the same value; more than 40 characters or a non-hex character give `""` |
| `VaultCrypto.PaddedAddressAccepted` | src/src/lib/vaultCrypto.ts:78-79 | up to 40 single-case hex digits, zero-padded to 40, are accepted, and the address has their value |
| `VaultCrypto.PaddedAddressRejected` | src/src/lib/vaultCrypto.ts:78-79 | more than 40 characters, or a character that is not a hex digit, makes `getAddress` throw after padding |
| `VaultCrypto.PadStartValue` | src/src/lib/vaultCrypto.ts:78 | zero-padding a run of hex digits to 40 keeps it hex and keeps its value |
| `VaultCrypto.PadStartSingleCase` | src/src/lib/vaultCrypto.ts:78 | zero-padding cannot make a single-case run mixed-case |
| `JsText.PadStart` | src/src/lib/vaultCrypto.ts:78 | `padStart` never truncates; a shorter string is left-filled with the pad character to exactly the width, and keeps its characters at the end |
| `JsText.Split` | src/src/lib/vaultCrypto.ts:63 | `split(':')` always gives at least one field; `JoinSplit`, `SplitJoin`, `SplitAppend` and `SplitFieldsAvoidSeparator` say what the fields are |
| `JsText.SplitJoin` | src/src/lib/vaultCrypto.ts:56-63 | joining fields that hold no `:` with `:` and splitting again gives the fields back |
| `JsText.JoinSplit` | src/src/lib/vaultCrypto.ts:63 | joining the fields of a split with the separator gives the string back |
| `JsText.SplitAppend` | src/src/lib/vaultCrypto.ts:63 | splitting `a:b` gives the fields of `a` followed by the fields of `b` |
| `JsText.SplitFieldsAvoidSeparator` | src/src/lib/vaultCrypto.ts:63 | no field of a split contains the separator |
| `JsNumeric.NatToHexDigits` | src/src/lib/vaultCrypto.ts:89 | `toString(16)` of a non-negative integer writes lower-case hex digits that read back as the integer |
| `JsNumeric.NatToHexLength` | src/src/lib/vaultCrypto.ts:89 | a non-negative integer prints in at most `k` hex digits exactly when it is below `16^k` |
| `JsNumeric.LeadingZeros` | src/src/lib/vaultCrypto.ts:78 | leading zeros do not change the value of a run of digits |
| `JsNumeric.SameDigitsSameValue` | src/src/lib/vaultCrypto.ts:28 | runs whose digits have the same values, such as runs differing only in case, have the same value |
| `JsNumeric.ParseDigits` | src/src/lib/vaultCrypto.ts:81 | a digit run is accepted exactly when it is non-empty and every character is a digit of the radix |
| `JsNumeric.DecimalStringToBigInt` | src/src/lib/vaultCrypto.ts:81 | `BigInt` of a plain decimal digit run is its decimal value |
| `JsNumeric.BlankStringToBigInt` | src/src/lib/vaultCrypto.ts:81 | `BigInt` of an empty or whitespace-only string is 0 |
| `JsNumeric.StringToBigInt` | src/src/lib/vaultCrypto.ts:81 | `BigInt(string)` throws only SyntaxError. The lemmas below cover plain, signed and `0x`/`0X`-prefixed digit runs and blank strings, and say when it rejects. The `0o` and `0b` forms and surrounding whitespace on a number have no lemma |
| `JsNumeric.PlusDecimalStringToBigInt` | src/src/lib/vaultCrypto.ts:81 | `BigInt` of `+` followed by decimal digits is their value |
| `JsNumeric.MinusDecimalStringToBigInt` | src/src/lib/vaultCrypto.ts:81 | `BigInt` of `-` followed by decimal digits is their value negated |
| `JsNumeric.HexStringToBigInt` | src/src/lib/vaultCrypto.ts:81 | `BigInt` of `0x` or `0X` followed by hex digits, in either case, is the number the digits write |
| `JsNumeric.StringToBigIntRejects` | src/src/lib/vaultCrypto.ts:81 | without a radix prefix, a trimmed string holding a character that is no decimal digit, other than a leading sign, is a SyntaxError |

## Left out

- AES-GCM, SHA-256, Keccak-256, UTF-8 and `crypto.getRandomValues` are parameters, not implementations. Authentication and tamper detection are therefore only the `None` result of a decrypt parameter. Decryption with the wrong key is not characterised.
- `RoundTrip` assumes, as named hypotheses, that AES-GCM round-trips and that UTF-8 round-trips the one plaintext. The model does not derive them.
- `RoundTrip`: the source's `new TextDecoder()` keeps its default `ignoreBOM: false`, so it drops a leading U+FEFF. A plaintext that starts with U+FEFF therefore comes back without it. `Utf8RoundTrips` is false for such a plaintext, and `RoundTrip` says nothing about it.
- `RoundTrip`: a plaintext with an unpaired surrogate cannot be represented, because strings here are sequences of Unicode scalar values. In the source, `TextEncoder` writes such a surrogate as U+FFFD, so decryption returns U+FFFD in its place.
- `crypto.subtle.importKey` is the identity on the 32 digest bytes. The key object, its usages and its non-extractability are not modelled.
- `async`/`await`: every operation is modelled as a synchronous function of its inputs.
- The `console.error` call in the `catch` of `normalizeDecryptedAddress` is I/O and is dropped.
- ICAP addresses (the `XE…` form `getAddress` also accepts) are not part of this model. Such a string is rejected as an invalid address here.
- JavaScript numbers are a datatype: integral (any integer) or not. Floating-point precision, such as a number above 2^53 that is no longer the integer it was written as, is not modelled.
- Case mapping is ASCII only. Only hex digits and base64 characters reach the case functions.
- Strings are sequences of Unicode scalar values, not of UTF-16 code units. An astral character is one element here where JavaScript counts two, and a string holding an unpaired surrogate cannot be represented.
- `UnsupportedPayloadFormat` is the message of a plain `Error` in the source. It is a distinct error here; the message text is not modelled.
- `EncryptLayout` states the envelope with a 12-byte nonce taken as the first 12 values of the random source. It does not model a random source shared across several calls.
- The vault contract, the React components, the deploy script, the tasks and the tests are not part of this model.
