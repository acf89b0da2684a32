/** Serialize and deserialize values through their uncompressed representation only. */
module Uncompressed {
  import opened Results
  import opened Canonical
  import opened Serde
  import Selector

  /** The visitor: decodes the received bytes with the uncompressed decoder. */
  function VisitBytes<V, E>(c: Capability<V>, bytes: seq<byte>, invalidValue: (Unexpected, string) -> E): (r: Result<V, E>)
    ensures c.deserializeUncompressed(bytes).Ok? ==> r == Ok(c.deserializeUncompressed(bytes).value)
    ensures c.deserializeUncompressed(bytes).Err? ==> r == Err(invalidValue(Bytes(bytes), c.typeName))
  {
    Selector.VisitBytes(c, Compress.No, bytes, invalidValue)
  }

  /** Serializes `v` through its uncompressed encoding. */
  function Serialize<V, R, E>(c: Capability<V>, v: V, sink: Sink<R, E>): (r: Result<R, E>)
    ensures c.serializeUncompressed(v).Err? ==> r == Err(sink.custom("serialize_uncompressed failed"))
    ensures c.serializeUncompressed(v).Ok? ==> r == sink.serializeBytes(c.serializeUncompressed(v).value)
  {
    Selector.Serialize(c, Compress.No, v, sink)
  }

  /** Deserializes a value from the one byte blob the source holds. */
  function Deserialize<V, E>(c: Capability<V>, source: Source<E>): (r: Result<V, E>)
    ensures source.bytes.Err? ==> r == Err(source.bytes.error)
    ensures source.bytes.Ok? ==> r == VisitBytes(c, source.bytes.value, source.invalidValue)
  {
    Selector.Deserialize(c, Compress.No, source)
  }
}
