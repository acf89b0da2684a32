/** The crate's top-level pair: the compressed selector, the default form. */
module SerdeCompat {
  import opened Results
  import opened Canonical
  import opened Serde
  import Compressed

  /** The default serializer: the compressed one. */
  function Serialize<V, R, E>(c: Capability<V>, v: V, sink: Sink<R, E>): (r: Result<R, E>)
    ensures r == Compressed.Serialize(c, v, sink)
    ensures c.serializeCompressed(v).Err? ==> r == Err(sink.custom("serialize_compressed failed"))
    ensures c.serializeCompressed(v).Ok? ==> r == sink.serializeBytes(c.serializeCompressed(v).value)
  {
    Compressed.Serialize(c, v, sink)
  }

  /** The default deserializer: the compressed one. */
  function Deserialize<V, E>(c: Capability<V>, source: Source<E>): (r: Result<V, E>)
    ensures r == Compressed.Deserialize(c, source)
    ensures source.bytes.Ok? && c.deserializeCompressed(source.bytes.value).Ok?
      ==> r == Ok(c.deserializeCompressed(source.bytes.value).value)
  {
    Compressed.Deserialize(c, source)
  }
}
