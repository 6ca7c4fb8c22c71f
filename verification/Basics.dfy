/** Types shared by every module of the datastore model. */
module Basics {

  datatype Option<+T> = None | Some(value: T)

  datatype Result<+T, +E> = Ok(value: T) | Err(error: E)

  newtype Byte = x: int | 0 <= x < 256

  type Bytes = seq<Byte>

  /** A SHA-256 digest as text: 64 lowercase hex characters when it is well formed. */
  type Digest = string

  /** A slash-separated logical artifact key. */
  type Key = string

  const U64_MAX: nat := 0xFFFF_FFFF_FFFF_FFFF
  const I64_MAX: nat := 0x7FFF_FFFF_FFFF_FFFF

  /** The error variants the modelled code distinguishes. */
  datatype Error =
    | ContentRejected(check: string)
    | OfflineMiss
    | MirrorUnreachable
    | ManualRequired
    | AllSourcesFailed
    | NoCredential
    | CredentialRejected
    | TransferLimit
    | FillUnavailable
    | MirrorError
    | ConfigError
    | ManifestError
    | IoError
    | HttpError

  /** What a provider may hold for a host; a bearer token's expiry only colours an error text. */
  datatype Credential = Basic(user: string, secret: string) | Bearer(secret: string)

  predicate IsHex(c: char) { '0' <= c <= '9' || 'a' <= c <= 'f' }

  predicate IsDigest(text: string) {
    |text| == 64 && forall i | 0 <= i < |text| :: IsHex(text[i])
  }

  function Min(a: nat, b: nat): nat { if a <= b then a else b }

  function Max(a: nat, b: nat): nat { if a <= b then b else a }

  function Concat(chunks: seq<Bytes>): Bytes {
    if chunks == [] then [] else chunks[0] + Concat(chunks[1..])
  }
}
