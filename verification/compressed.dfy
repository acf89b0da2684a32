/** Serialize and deserialize values through their compressed representation only. */
module Compressed {
  import opened Results
  import opened Canonical
  import opened Serde
  import Selector

  /** The visitor: decodes the received bytes with the compressed decoder. */
  function VisitBytes<V, E>(c: Capability<V>, bytes: seq<byte>, invalidValue: (Unexpected, string) -> E): (r: Result<V, E>)
    ensures c.deserializeCompressed(bytes).Ok? ==> r == Ok(c.deserializeCompressed(bytes).value)
    ensures c.deserializeCompressed(bytes).Err? ==> r == Err(invalidValue(Bytes(bytes), c.typeName))
  {
    Selector.VisitBytes(c, Compress.Yes, bytes, invalidValue)
  }

  /** Serializes `v` through its compressed encoding. */
  function Serialize<V, R, E>(c: Capability<V>, v: V, sink: Sink<R, E>): (r: Result<R, E>)
    ensures c.serializeCompressed(v).Err? ==> r == Err(sink.custom("serialize_compressed failed"))
    ensures c.serializeCompressed(v).Ok? ==> r == sink.serializeBytes(c.serializeCompressed(v).value)
  {
    Selector.Serialize(c, Compress.Yes, v, sink)
  }

  /** Deserializes a value from the one byte blob the source holds. */
  function Deserialize<V, E>(c: Capability<V>, source: Source<E>): (r: Result<V, E>)
    ensures source.bytes.Err? ==> r == Err(source.bytes.error)
    ensures source.bytes.Ok? ==> r == VisitBytes(c, source.bytes.value, source.invalidValue)
  {
    Selector.Deserialize(c, Compress.Yes, source)
  }
}
