/**
 * ethers `getAddress`: checks that a string is a 20-byte hex address
 * (40 hex digits, with or without `0x`) and returns it in the EIP-55
 * mixed-case checksum form, rejecting a mixed-case input whose case is not
 * that checksum. Keccak-256 itself is a parameter.
 */
module EthAddress {
  import opened Js
  import opened JsText
  import opened JsNumeric
  import opened Platform

  const DigitCount: nat := 40

  /** `^(0x)?[0-9a-fA-F]{40}$` */
  predicate HasAddressShape(s: string) {
    (|s| == DigitCount + 2 && s[..2] == "0x" && IsHexString(s[2..]))
    || (|s| == DigitCount && IsHexString(s))
  }

  /** The 40 digits of a well-shaped address, without the `0x`. */
  function Digits(s: string): (d: string)
    requires HasAddressShape(s)
    ensures |d| == DigitCount && IsHexString(d)
  {
    if |s| == DigitCount + 2 then s[2..] else s
  }

  /** `/([A-F].*[a-f])|([a-f].*[A-F])/` matches: an upper-case and a lower-case hex letter both occur. */
  predicate IsMixedCase(s: string) {
    (exists i :: 0 <= i < |s| && 'A' <= s[i] <= 'F') && (exists j :: 0 <= j < |s| && 'a' <= s[j] <= 'f')
  }

  predicate IsLowerHex(s: string) {
    IsHexString(s) && forall i :: 0 <= i < |s| ==> !('A' <= s[i] <= 'Z')
  }

  lemma LowerHexConcat(s: string, t: string)
    requires IsLowerHex(s) && IsLowerHex(t)
    ensures IsLowerHex(s + t)
  {
    forall i | |s| <= i < |s + t|
      ensures (s + t)[i] == t[i - |s|]
    {
    }
  }

  /** The bytes that `keccak256` hashes: one per character code (an ASCII hex digit). */
  function AsciiBytes(s: string): (b: seq<byte>)
    ensures |b| == |s|
  {
    seq(|s|, i requires 0 <= i < |s| => s[i] as int % 256)
  }

  /** Hex digit `i` of a digest: the high nibble of byte i/2 for even `i`, the low one for odd `i`. */
  function Nibble(h: Digest, i: nat): (n: nat)
    requires i < 64
  {
    if i % 2 == 0 then h[i / 2] / 16 else h[i / 2] % 16
  }

  /** EIP-55 for one digit: upper-cased when nibble `i` of the hash is at least 8. */
  function ChecksumDigit(hashed: Digest, c: char, i: nat): (d: char)
    requires i < 64
  {
    if Nibble(hashed, i) >= 8 then ToUpperChar(c) else c
  }

  /** The checksummed digits from position `i` on. */
  function ChecksumFrom(hashed: Digest, lower: string, i: nat): (r: string)
    requires i <= |lower| <= 64
    ensures |r| == |lower| - i
    decreases |lower| - i
  {
    if i == |lower| then [] else [ChecksumDigit(hashed, lower[i], i)] + ChecksumFrom(hashed, lower, i + 1)
  }

  /** EIP-55: digit `i` of the lower-case address is upper-cased when nibble `i` of its Keccak-256 hash is at least 8. */
  function Checksum(p: Primitives, lower: string): (r: string)
    requires |lower| == DigitCount
    ensures |r| == DigitCount
  {
    ChecksumFrom(p.keccak256(AsciiBytes(lower)), lower, 0)
  }

  lemma {:induction false} ChecksumFromDigits(hashed: Digest, lower: string, i: nat)
    requires i <= |lower| <= 64
    ensures forall j :: i <= j < |lower| ==> ChecksumFrom(hashed, lower, i)[j - i] == ChecksumDigit(hashed, lower[j], j)
    decreases |lower| - i
  {
    if i < |lower| {
      ChecksumFromDigits(hashed, lower, i + 1);
    }
  }

  /** Digit `i` of the checksum is digit `i` of the address, upper-cased or not according to the hash. */
  lemma ChecksumDigits(p: Primitives, lower: string)
    requires |lower| == DigitCount
    ensures forall i :: 0 <= i < DigitCount ==>
      Checksum(p, lower)[i] == ChecksumDigit(p.keccak256(AsciiBytes(lower)), lower[i], i)
  {
    ChecksumFromDigits(p.keccak256(AsciiBytes(lower)), lower, 0);
  }

  /** ethers `getAddress(address)` (the ICAP form is not part of this model). */
  function GetAddress(p: Primitives, address: string): (r: Result<string>)
    ensures r.Ok? ==> |r.value| == DigitCount + 2 && r.value[..2] == "0x" && HasAddressShape(r.value)
    ensures r.Err? ==> r.error == InvalidAddress || r.error == BadAddressChecksum
  {
    if !HasAddressShape(address) then Err(InvalidAddress)
    else
      var digits := Digits(address);
      ChecksumIsHex(p, ToLower(digits));
      var result := "0x" + Checksum(p, ToLower(digits));
      if IsMixedCase(digits) && result != "0x" + digits then Err(BadAddressChecksum) else Ok(result)
  }

  lemma ToLowerIsLowerHex(s: string)
    requires IsHexString(s)
    ensures IsLowerHex(ToLower(s))
    ensures forall i :: 0 <= i < |s| ==> DigitValue(ToLower(s)[i]) == DigitValue(s[i])
  {
  }

  lemma ChecksumIsHex(p: Primitives, lower: string)
    requires |lower| == DigitCount && IsHexString(lower)
    ensures IsHexString(Checksum(p, lower))
  {
    ChecksumDigits(p, lower);
  }

  /** The checksum changes only letter case: lower-casing it gives the digits back, and every digit keeps its value. */
  lemma ChecksumOnlyChangesCase(p: Primitives, lower: string)
    requires |lower| == DigitCount && IsLowerHex(lower)
    ensures IsHexString(Checksum(p, lower))
    ensures ToLower(Checksum(p, lower)) == lower
    ensures forall i :: 0 <= i < DigitCount ==> DigitValue(Checksum(p, lower)[i]) == DigitValue(lower[i])
  {
    var c := Checksum(p, lower);
    ChecksumDigits(p, lower);
    forall i | 0 <= i < DigitCount
      ensures ToLowerChar(c[i]) == lower[i] && DigitValue(c[i]) == DigitValue(lower[i])
    {
    }
  }

  /** A well-shaped address with no mixed case is always accepted. */
  lemma GetAddressAcceptsSingleCase(p: Primitives, address: string)
    requires HasAddressShape(address) && !IsMixedCase(Digits(address))
    ensures GetAddress(p, address) == Ok("0x" + Checksum(p, ToLower(Digits(address))))
  {
  }

  /**
   * `getAddress` accepts exactly the well-shaped strings whose digits are in
   * one case or already carry the checksum; what it returns is the same
   * address, digit for digit up to case, and is itself accepted unchanged.
   */
  lemma GetAddressCanonical(p: Primitives, address: string)
    ensures GetAddress(p, address).Ok? <==>
      HasAddressShape(address)
      && (!IsMixedCase(Digits(address)) || Checksum(p, ToLower(Digits(address))) == Digits(address))
    ensures GetAddress(p, address).Ok? ==>
      var r := GetAddress(p, address).value;
      && ToLower(Digits(r)) == ToLower(Digits(address))
      && (forall i :: 0 <= i < DigitCount ==> DigitValue(Digits(r)[i]) == DigitValue(Digits(address)[i]))
      && GetAddress(p, r) == Ok(r)
  {
    if HasAddressShape(address) {
      var d := Digits(address);
      var lower := ToLower(d);
      ToLowerIsLowerHex(d);
      ChecksumOnlyChangesCase(p, lower);
      var c := Checksum(p, lower);
      assert ("0x" + c)[..2] == "0x" && ("0x" + c)[2..] == c;
      if IsMixedCase(d) && "0x" + c == "0x" + d {
        assert c == ("0x" + c)[2..];
      }
      if GetAddress(p, address).Ok? {
        var r := "0x" + c;
        assert Digits(r) == c;
      }
    }
  }
}
