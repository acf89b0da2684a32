/**
  The generic structured-serialization framework, seen only through the
  primitives the adapter touches. A serializer or deserializer is a record of
  the framework's own behaviour, supplied by the caller.
 */
module Serde {
  import opened Results
  import opened Canonical

  /** What a visitor says it was handed when it rejects input. Only a byte
      array is ever reported by this adapter. */
  datatype Unexpected = Bytes(bytes: seq<byte>)

  /** A serializer: its byte-blob primitive, which yields the serializer's own
      output `R` or error `E`, and its constructor of a custom error from a message. */
  datatype Sink<R, E> = Sink(
    serializeBytes: seq<byte> -> Result<R, E>,
    custom: string -> E)

  /** A deserializer asked for one byte blob: `bytes` is the blob the format
      holds there, or the format's own error; `invalidValue` builds the
      "invalid value" error from what was received and what was expected. */
  datatype Source<E> = Source(
    bytes: Result<seq<byte>, E>,
    invalidValue: (Unexpected, string) -> E)

  /** A serializer asked for a sequence: `begin` receives the length hint,
      `element` serializes each element to an item `Q`, and `end` closes the
      sequence over the items in order. */
  datatype SeqSink<R, !Q, E> = SeqSink(
    begin: nat -> Result<(), E>,
    element: Sink<Q, E>,
    end: seq<Q> -> Result<R, E>)

  /** A deserializer asked for a sequence: one blob source per element, in
      order, or the format's own error. */
  datatype SeqSource<E> = SeqSource(elements: Result<seq<Source<E>>, E>)
}
