/**
 * The keyed MAC the generators call through javax.crypto.Mac. The cryptography is outside
 * the model: a MAC is any function of algorithm, key and message whose output has the
 * digest length of the algorithm (RFC 2104 with SHA-1, SHA-256 or SHA-512).
 */
module Hmac {
  import opened ByteSeq

  datatype Algorithm = HmacSHA1 | HmacSHA256 | HmacSHA512

  /** The JCA name Mac.getInstance is given. */
  function Name(a: Algorithm): string {
    match a
    case HmacSHA1 => "HmacSHA1"
    case HmacSHA256 => "HmacSHA256"
    case HmacSHA512 => "HmacSHA512"
  }

  /** The digest length of the underlying hash, in bytes. */
  function MacLength(a: Algorithm): nat {
    match a
    case HmacSHA1 => 20
    case HmacSHA256 => 32
    case HmacSHA512 => 64
  }

  type MacFunction = (Algorithm, seq<byte>, seq<byte>) -> seq<byte>

  /** What the model knows of Mac.doFinal: the output is exactly one digest long. */
  ghost predicate WellFormed(mac: MacFunction) {
    forall a, key, text :: |mac(a, key, text)| == MacLength(a)
  }
}
