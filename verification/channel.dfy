/**
  An in-memory structured format, reduced to what the adapter's round trip
  needs: a byte blob is framed into wire bytes, and a blob is read back from
  wire bytes together with the number of wire bytes it took. Whether the
  format is lossless is a predicate the round-trip lemmas assume.
 */
module Channel {
  import opened Results
  import opened Canonical
  import opened Serde

  /** A format for single byte blobs. */
  datatype Channel<E> = Channel(
    write: seq<byte> -> Result<seq<byte>, E>,
    read: seq<byte> -> Result<(seq<byte>, nat), E>,
    custom: string -> E,
    invalidValue: (Unexpected, string) -> E)
  {
    /** The serializer that writes into a fresh buffer and returns its wire bytes. */
    function AsSink(): Sink<seq<byte>, E> {
      Sink(write, custom)
    }

    /** The deserializer reading from `wire`. */
    function SourceOf(wire: seq<byte>): Source<E> {
      Source(read(wire).Map((p: (seq<byte>, nat)) => p.0), invalidValue)
    }

    /** Writing `blob` succeeds, and reading the result back gives `blob`
        and consumes every wire byte. */
    ghost predicate LosslessFor(blob: seq<byte>) {
      write(blob).Ok? && read(write(blob).value) == Ok((blob, |write(blob).value|))
    }

    ghost predicate Lossless() {
      forall blob :: LosslessFor(blob)
    }
  }

  /** A format for sequences: `begin` takes the length hint, `end` frames the
      elements' wire bytes, and `split` recovers them and the bytes consumed. */
  datatype SeqChannel<E> = SeqChannel(
    element: Channel<E>,
    begin: nat -> Result<(), E>,
    end: seq<seq<byte>> -> Result<seq<byte>, E>,
    split: seq<byte> -> Result<(seq<seq<byte>>, nat), E>)
  {
    function AsSeqSink(): SeqSink<seq<byte>, seq<byte>, E> {
      SeqSink(begin, element.AsSink(), end)
    }

    function SeqSourceOf(wire: seq<byte>): SeqSource<E> {
      match split(wire)
      case Err(e) => SeqSource(Err(e))
      case Ok((parts, _)) => SeqSource(Ok(seq(|parts|, i requires 0 <= i < |parts| => element.SourceOf(parts[i]))))
    }

    ghost predicate LosslessFor(parts: seq<seq<byte>>) {
      end(parts).Ok? && split(end(parts).value) == Ok((parts, |end(parts).value|))
    }

    ghost predicate Lossless() {
      && element.Lossless()
      && (forall n :: begin(n).Ok?)
      && (forall parts :: LosslessFor(parts))
    }
  }
}
