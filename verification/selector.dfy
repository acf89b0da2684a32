/**
  The adapter shape shared by the compressed and the uncompressed selector,
  parametrised by the wire form it uses. Each operation calls exactly one
  encoder or decoder of the capability: the one of its own form.
 */
module Selector {
  import opened Results
  import opened Canonical
  import opened Serde

  /** The fixed message of the custom error that replaces a failed encode. */
  function FailureMessage(compress: Compress): string {
    match compress
    case Yes => "serialize_compressed failed"
    case No => "serialize_uncompressed failed"
  }

  /** What the visitor says it expects: the target type's name. */
  function Expecting<V>(c: Capability<V>): (s: string)
    ensures s == c.typeName
  {
    c.typeName
  }

  /** The visitor's answer to a byte blob: the decoded value, or an invalid-value
      error that carries the received bytes and the type's name. */
  function VisitBytes<V, E>(c: Capability<V>, compress: Compress, bytes: seq<byte>,
                            invalidValue: (Unexpected, string) -> E): (r: Result<V, E>)
    ensures r.Ok? <==> c.Decode(compress, bytes).Ok?
    ensures r.Ok? ==> r.value == c.Decode(compress, bytes).value
    ensures r.Err? ==> r.error == invalidValue(Bytes(bytes), c.typeName)
  {
    match c.Decode(compress, bytes)
    case Ok(v) => Ok(v)
    case Err(_) => Err(invalidValue(Bytes(bytes), Expecting(c)))
  }

  /** Encodes `v` and hands exactly the encoding to the sink's byte primitive;
      a failed encode becomes the sink's custom error with the fixed message. */
  function Serialize<V, R, E>(c: Capability<V>, compress: Compress, v: V, sink: Sink<R, E>): (r: Result<R, E>)
    ensures c.Encode(compress, v).Err? ==> r == Err(sink.custom(FailureMessage(compress)))
    ensures c.Encode(compress, v).Ok? ==> r == sink.serializeBytes(c.Encode(compress, v).value)
  {
    match c.Encode(compress, v)
    case Err(_) => Err(sink.custom(FailureMessage(compress)))
    case Ok(dst) => sink.serializeBytes(dst)
  }

  /** Asks the source for one byte blob and lets the visitor decode it; the
      source's own error is returned as it is. */
  function Deserialize<V, E>(c: Capability<V>, compress: Compress, source: Source<E>): (r: Result<V, E>)
    ensures source.bytes.Err? ==> r == Err(source.bytes.error)
    ensures source.bytes.Ok? && c.Decode(compress, source.bytes.value).Ok?
      ==> r == Ok(c.Decode(compress, source.bytes.value).value)
    ensures source.bytes.Ok? && c.Decode(compress, source.bytes.value).Err?
      ==> r == Err(source.invalidValue(Bytes(source.bytes.value), c.typeName))
  {
    match source.bytes
    case Err(e) => Err(e)
    case Ok(bytes) => VisitBytes(c, compress, bytes, source.invalidValue)
  }
}
