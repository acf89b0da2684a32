/**
  The canonical byte encoding a cryptographic value type offers (the external
  `CanonicalSerialize` / `CanonicalDeserialize` capability). The encoding
  algorithms themselves are not part of this model: a value type is described
  by the four routines it provides and by its type name, all as parameters.
 */
module Canonical {
  import opened Results

  newtype byte = b: int | 0 <= b < 0x100

  /** Why a canonical encode or decode failed. The adapter never looks inside it. */
  datatype SerializationError = SerializationError(detail: string)

  /** The two wire forms: `Yes` is the compressed form, `No` the uncompressed one. */
  datatype Compress = Yes | No

  /** The canonical encoding capability of one value type `V`. */
  datatype Capability<!V> = Capability(
    serializeCompressed: V -> Result<seq<byte>, SerializationError>,
    serializeUncompressed: V -> Result<seq<byte>, SerializationError>,
    deserializeCompressed: seq<byte> -> Result<V, SerializationError>,
    deserializeUncompressed: seq<byte> -> Result<V, SerializationError>,
    typeName: string)
  {
    /** The encoder of one wire form. */
    function Encode(compress: Compress, v: V): Result<seq<byte>, SerializationError> {
      match compress
      case Yes => serializeCompressed(v)
      case No => serializeUncompressed(v)
    }

    /** The decoder of one wire form. */
    function Decode(compress: Compress, bytes: seq<byte>): Result<V, SerializationError> {
      match compress
      case Yes => deserializeCompressed(bytes)
      case No => deserializeUncompressed(bytes)
    }

    /** The capability's own promise for `v` in one form: it encodes, and decoding
        the encoding gives `v` back. The adapter relies on it and never checks it. */
    ghost predicate RoundTrips(compress: Compress, v: V) {
      Encode(compress, v).Ok? && Decode(compress, Encode(compress, v).value) == Ok(v)
    }
  }
}
