/**
 * The JavaScript runtime values the envelope codec works with: bytes of a
 * `Uint8Array`, the exceptions it can raise on its way, and a result type
 * that stands for "returns a value or throws".
 */
module Js {

  /** One element of a `Uint8Array`. */
  type byte = x: int | 0 <= x < 256

  /** The exceptions that can escape (or be caught inside) the codec. */
  datatype Error =
    | UnsupportedPayloadFormat  // thrown by decryptWithAddressKey itself
    | InvalidAddress            // ethers getAddress: not a 40-digit hex address
    | BadAddressChecksum        // ethers getAddress: mixed case that is not the EIP-55 checksum
    | InvalidCharacter          // atob / btoa: DOMException "InvalidCharacterError"
    | OperationFailed           // Web Crypto AES-GCM decrypt: "OperationError" (tag mismatch)
    | BigIntSyntax              // BigInt(string): SyntaxError
    | BigIntRange               // BigInt(number) of a non-integral number: RangeError

  /** A computation that returns a value or throws an `Error`. */
  datatype Result<+T> = Ok(value: T) | Err(error: Error) {
    predicate IsFailure() { Err? }

    function PropagateFailure<U>(): Result<U>
      requires Err?
    {
      Err(error)
    }

    function Extract(): T
      requires Ok?
    {
      value
    }
  }

  datatype Option<+T> = None | Some(value: T)
}
