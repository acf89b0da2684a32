/**
  Properties that relate several calls: the serialize/deserialize round trip
  of each selector and of the sequence lifter over a lossless format, the
  agreement of the two selectors when the two encodings coincide, and the
  selectors' independence from everything but their own wire form.
 */
module RoundTrip {
  import opened Results
  import opened Canonical
  import opened Serde
  import opened Channel
  import Selector
  import Compressed
  import Uncompressed
  import Vec

  /** Serializes one value through the selector of form `compress` into wire bytes. */
  function EncodeToVec<V, E>(c: Capability<V>, compress: Compress, ch: Channel<E>, v: V): Result<seq<byte>, E> {
    Selector.Serialize(c, compress, v, ch.AsSink())
  }

  /** Deserializes one value from wire bytes, reporting how many were consumed. */
  function DecodeFromSlice<V, E>(c: Capability<V>, compress: Compress, ch: Channel<E>, wire: seq<byte>): Result<(V, nat), E> {
    match ch.read(wire)
    case Err(e) => Err(e)
    case Ok((_, n)) => Selector.Deserialize(c, compress, ch.SourceOf(wire)).Map((v: V) => (v, n))
  }

  /** Given the capability's round trip for `v` and a lossless format, deserializing
      what was serialized gives `v` back and consumes exactly the bytes written. */
  lemma SelectorRoundTrip<V, E>(c: Capability<V>, compress: Compress, ch: Channel<E>, v: V)
    requires c.RoundTrips(compress, v)
    requires ch.Lossless()
    ensures EncodeToVec(c, compress, ch, v).Ok?
    ensures DecodeFromSlice(c, compress, ch, EncodeToVec(c, compress, ch, v).value)
         == Ok((v, |EncodeToVec(c, compress, ch, v).value|))
  {
    var blob := c.Encode(compress, v).value;
    assert ch.LosslessFor(blob);
    var wire := ch.write(blob).value;
    assert EncodeToVec(c, compress, ch, v) == Ok(wire);
    assert ch.SourceOf(wire).bytes == Ok(blob);
  }

  /** When a value's two encodings are the same bytes, both selectors emit the same output. */
  lemma EqualEncodingsEqualOutput<V, R, E>(c: Capability<V>, v: V, sink: Sink<R, E>)
    requires c.serializeCompressed(v).Ok?
    requires c.serializeCompressed(v) == c.serializeUncompressed(v)
    ensures Compressed.Serialize(c, v, sink) == Uncompressed.Serialize(c, v, sink)
  {
  }

  /** When both encodes fail, the two selectors' errors differ exactly when the
      sink tells their two fixed messages apart. */
  lemma FailedEncodesDifferOnlyByMessage<V, R, E>(c: Capability<V>, v: V, sink: Sink<R, E>)
    requires c.serializeCompressed(v).Err? && c.serializeUncompressed(v).Err?
    ensures Compressed.Serialize(c, v, sink) == Uncompressed.Serialize(c, v, sink)
        <==> sink.custom("serialize_compressed failed") == sink.custom("serialize_uncompressed failed")
  {
  }

  /** A value whose two encodings coincide (a scalar, say) serializes to the same
      wire bytes under either selector, and either selector reads them back. */
  lemma CoincidingEncodingsRoundTrip<V, E>(c: Capability<V>, ch: Channel<E>, v: V)
    requires c.RoundTrips(Compress.Yes, v) && c.RoundTrips(Compress.No, v)
    requires c.serializeCompressed(v) == c.serializeUncompressed(v)
    requires ch.Lossless()
    ensures EncodeToVec(c, Compress.Yes, ch, v).Ok?
    ensures EncodeToVec(c, Compress.No, ch, v) == EncodeToVec(c, Compress.Yes, ch, v)
    ensures var wire := EncodeToVec(c, Compress.Yes, ch, v).value;
            && DecodeFromSlice(c, Compress.Yes, ch, wire) == Ok((v, |wire|))
            && DecodeFromSlice(c, Compress.No, ch, wire) == Ok((v, |wire|))
  {
    SelectorRoundTrip(c, Compress.Yes, ch, v);
    SelectorRoundTrip(c, Compress.No, ch, v);
  }

  /** A failed encode's cause never reaches the output: any two failures give the same error. */
  lemma SerializeDiscardsCause<V, R, E>(c1: Capability<V>, c2: Capability<V>, compress: Compress, v: V, sink: Sink<R, E>)
    requires c1.Encode(compress, v).Err? && c2.Encode(compress, v).Err?
    ensures Selector.Serialize(c1, compress, v, sink) == Selector.Serialize(c2, compress, v, sink)
  {
  }

  /** The compressed selector depends on nothing of the capability but its compressed
      routines and the type name: changing the uncompressed ones changes nothing. */
  lemma CompressedIgnoresUncompressed<V, R, E>(c1: Capability<V>, c2: Capability<V>, v: V, sink: Sink<R, E>, source: Source<E>)
    requires c1.serializeCompressed(v) == c2.serializeCompressed(v)
    requires source.bytes.Ok? ==> c1.deserializeCompressed(source.bytes.value) == c2.deserializeCompressed(source.bytes.value)
    requires c1.typeName == c2.typeName
    ensures Compressed.Serialize(c1, v, sink) == Compressed.Serialize(c2, v, sink)
    ensures Compressed.Deserialize(c1, source) == Compressed.Deserialize(c2, source)
  {
  }

  /** The uncompressed selector depends on nothing of the capability but its
      uncompressed routines and the type name. */
  lemma UncompressedIgnoresCompressed<V, R, E>(c1: Capability<V>, c2: Capability<V>, v: V, sink: Sink<R, E>, source: Source<E>)
    requires c1.serializeUncompressed(v) == c2.serializeUncompressed(v)
    requires source.bytes.Ok? ==> c1.deserializeUncompressed(source.bytes.value) == c2.deserializeUncompressed(source.bytes.value)
    requires c1.typeName == c2.typeName
    ensures Uncompressed.Serialize(c1, v, sink) == Uncompressed.Serialize(c2, v, sink)
    ensures Uncompressed.Deserialize(c1, source) == Uncompressed.Deserialize(c2, source)
  {
  }

  /** Serializes a sequence of values into wire bytes. */
  function EncodeVec<V, E>(c: Capability<V>, sc: SeqChannel<E>, vs: seq<V>): Result<seq<byte>, E> {
    Vec.Serialize(c, vs, sc.AsSeqSink())
  }

  /** Deserializes a sequence of values from wire bytes, reporting how many were consumed. */
  function DecodeVec<V, E>(c: Capability<V>, sc: SeqChannel<E>, wire: seq<byte>): Result<(seq<V>, nat), E> {
    match sc.split(wire)
    case Err(e) => Err(e)
    case Ok((_, n)) => Vec.Deserialize(c, sc.SeqSourceOf(wire)).Map((vs: seq<V>) => (vs, n))
  }

  /** Given the compressed round trip for every element and a lossless format, a
      sequence comes back element for element, in order, consuming every byte. */
  lemma VecRoundTrip<V, E>(c: Capability<V>, sc: SeqChannel<E>, vs: seq<V>)
    requires forall i :: 0 <= i < |vs| ==> c.RoundTrips(Compress.Yes, vs[i])
    requires sc.Lossless()
    ensures EncodeVec(c, sc, vs).Ok?
    ensures DecodeVec(c, sc, EncodeVec(c, sc, vs).value) == Ok((vs, |EncodeVec(c, sc, vs).value|))
  {
    var ch := sc.element;
    var ws := Vec.Wrap(vs);
    assert forall i :: 0 <= i < |vs| ==> ch.LosslessFor(c.serializeCompressed(vs[i]).value);
    var parts := seq(|vs|, i requires 0 <= i < |vs| => ch.write(c.serializeCompressed(vs[i]).value).value);
    forall i | 0 <= i < |vs|
      ensures Vec.SerializeWrapper(c, ws[i], ch.AsSink()) == Ok(parts[i])
      ensures ch.LosslessFor(c.serializeCompressed(vs[i]).value)
    {
      assert c.RoundTrips(Compress.Yes, vs[i]);
      assert ch.LosslessFor(c.serializeCompressed(vs[i]).value);
    }
    assert Vec.EmitsInOrder(c, ws, sc.AsSeqSink().element, parts);
    assert sc.begin(|vs|).Ok?;
    assert sc.LosslessFor(parts);
    var wire := sc.end(parts).value;
    assert EncodeVec(c, sc, vs) == Ok(wire);
    assert sc.split(wire) == Ok((parts, |wire|));
    var srcs := sc.SeqSourceOf(wire).elements.value;
    assert |srcs| == |vs|;
    forall i | 0 <= i < |vs|
      ensures Compressed.Deserialize(c, srcs[i]) == Ok(vs[i])
    {
      var blob := c.serializeCompressed(vs[i]).value;
      assert srcs[i] == ch.SourceOf(parts[i]);
      assert ch.read(parts[i]) == Ok((blob, |parts[i]|));
      assert srcs[i].bytes == Ok(blob);
      assert c.RoundTrips(Compress.Yes, vs[i]);
    }
    var out := Vec.Deserialize(c, sc.SeqSourceOf(wire));
    assert out.Ok?;
    assert out.value == vs;
  }
}
