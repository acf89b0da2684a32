/**
  Sequences of values, each element wrapped in a one-field container whose
  field goes through the compressed selector. Only the compressed form exists
  for sequences.
 */
module Vec {
  import opened Results
  import opened Canonical
  import opened Serde
  import Compressed

  /** The single-field container that routes one element through the compressed selector. */
  datatype Wrapper<T> = Wrapper(inner: T)

  function Wrap<T>(vs: seq<T>): (ws: seq<Wrapper<T>>)
    ensures |ws| == |vs|
    ensures forall i :: 0 <= i < |vs| ==> ws[i].inner == vs[i]
  {
    seq(|vs|, i requires 0 <= i < |vs| => Wrapper(vs[i]))
  }

  function Unwrap<T>(ws: seq<Wrapper<T>>): (vs: seq<T>)
    ensures |vs| == |ws|
    ensures forall i :: 0 <= i < |ws| ==> vs[i] == ws[i].inner
  {
    seq(|ws|, i requires 0 <= i < |ws| => ws[i].inner)
  }

  /** Unwrapping undoes wrapping. */
  lemma UnwrapWrap<T>(vs: seq<T>)
    ensures Unwrap(Wrap(vs)) == vs
  {
  }

  /** The derived serializer of a wrapper: its field, compressed. */
  function SerializeWrapper<V, Q, E>(c: Capability<V>, w: Wrapper<V>, element: Sink<Q, E>): (r: Result<Q, E>)
    ensures r == Compressed.Serialize(c, w.inner, element)
    ensures c.serializeCompressed(w.inner).Err? ==> r == Err(element.custom("serialize_compressed failed"))
    ensures c.serializeCompressed(w.inner).Ok? ==> r == element.serializeBytes(c.serializeCompressed(w.inner).value)
  {
    Compressed.Serialize(c, w.inner, element)
  }

  /** The derived deserializer of a wrapper: its field, compressed. */
  function DeserializeWrapper<V, E>(c: Capability<V>, source: Source<E>): (r: Result<Wrapper<V>, E>)
    ensures r.Ok? <==> Compressed.Deserialize(c, source).Ok?
    ensures r.Ok? ==> r.value.inner == Compressed.Deserialize(c, source).value
    ensures r.Err? ==> r.error == Compressed.Deserialize(c, source).error
  {
    Compressed.Deserialize(c, source).Map(v => Wrapper(v))
  }

  /** `qs` holds, in order, one item per wrapper: the output of serializing that wrapper. */
  ghost predicate EmitsInOrder<V, Q, E>(c: Capability<V>, ws: seq<Wrapper<V>>, element: Sink<Q, E>, qs: seq<Q>) {
    && |qs| == |ws|
    && forall i :: 0 <= i < |ws| ==> SerializeWrapper(c, ws[i], element) == Ok(qs[i])
  }

  /** Wrapper `k` is the first whose serialization fails. */
  ghost predicate FirstSerializeFailure<V, Q, E>(c: Capability<V>, ws: seq<Wrapper<V>>, element: Sink<Q, E>, k: int) {
    && 0 <= k < |ws|
    && SerializeWrapper(c, ws[k], element).Err?
    && forall j :: 0 <= j < k ==> SerializeWrapper(c, ws[j], element).Ok?
  }

  /** The items of a sequence are determined by its wrappers. */
  lemma EmitsInOrderUnique<V, Q(!new), E>(c: Capability<V>, ws: seq<Wrapper<V>>, element: Sink<Q, E>, qs: seq<Q>)
    requires EmitsInOrder(c, ws, element, qs)
    ensures forall qs' :: EmitsInOrder(c, ws, element, qs') ==> qs' == qs
  {
  }

  /** Once the head serializes, the first failure of the tail is the first failure of the whole. */
  lemma FirstSerializeFailureOfTail<V, Q, E>(c: Capability<V>, ws: seq<Wrapper<V>>, element: Sink<Q, E>)
    requires |ws| > 0 && SerializeWrapper(c, ws[0], element).Ok?
    ensures forall k :: FirstSerializeFailure(c, ws[1..], element, k) ==> FirstSerializeFailure(c, ws, element, k + 1)
  {
  }

  /** Serializes the wrappers one after another, stopping at the first failure. */
  function SerializeElements<V, Q, E>(c: Capability<V>, ws: seq<Wrapper<V>>, element: Sink<Q, E>): (r: Result<seq<Q>, E>)
    ensures r.Ok? ==> EmitsInOrder(c, ws, element, r.value)
    ensures r.Err? ==> exists k :: FirstSerializeFailure(c, ws, element, k) && SerializeWrapper(c, ws[k], element) == Err(r.error)
    decreases |ws|
  {
    if |ws| == 0 then Ok([])
    else
      match SerializeWrapper(c, ws[0], element)
      case Err(e) =>
        assert FirstSerializeFailure(c, ws, element, 0);
        Err(e)
      case Ok(q) =>
        match SerializeElements(c, ws[1..], element)
        case Err(e) =>
          FirstSerializeFailureOfTail(c, ws, element);
          Err(e)
        case Ok(qs) => Ok([q] + qs)
  }

  /** `vs`, wrapped element by element, serialized as a sequence. */
  function Serialize<V, R, Q(!new), E>(c: Capability<V>, vs: seq<V>, sink: SeqSink<R, Q, E>): (r: Result<R, E>)
    ensures sink.begin(|vs|).Err? ==> r == Err(sink.begin(|vs|).error)
    ensures forall k ::
              sink.begin(|vs|).Ok? && FirstSerializeFailure(c, Wrap(vs), sink.element, k)
              ==> r == Err(SerializeWrapper(c, Wrap(vs)[k], sink.element).error)
    ensures forall qs :: sink.begin(|vs|).Ok? && EmitsInOrder(c, Wrap(vs), sink.element, qs) ==> r == sink.end(qs)
  {
    var tmp := Wrap(vs);
    match sink.begin(|tmp|)
    case Err(e) => Err(e)
    case Ok(_) =>
      match SerializeElements(c, tmp, sink.element)
      case Err(e) => Err(e)
      case Ok(qs) =>
        EmitsInOrderUnique(c, tmp, sink.element, qs);
        sink.end(qs)
  }

  /** Source `k` is the first whose element fails to deserialize. */
  ghost predicate FirstDeserializeFailure<V, E>(c: Capability<V>, srcs: seq<Source<E>>, k: int) {
    && 0 <= k < |srcs|
    && Compressed.Deserialize(c, srcs[k]).Err?
    && forall j :: 0 <= j < k ==> Compressed.Deserialize(c, srcs[j]).Ok?
  }

  /** Once the head deserializes, the first failure of the tail is the first failure of the whole. */
  lemma FirstDeserializeFailureOfTail<V, E>(c: Capability<V>, srcs: seq<Source<E>>)
    requires |srcs| > 0 && Compressed.Deserialize(c, srcs[0]).Ok?
    ensures forall k :: FirstDeserializeFailure(c, srcs[1..], k) ==> FirstDeserializeFailure(c, srcs, k + 1)
  {
  }

  /** Deserializes one wrapper per element source, in order, stopping at the first failure. */
  function DeserializeElements<V, E>(c: Capability<V>, srcs: seq<Source<E>>): (r: Result<seq<Wrapper<V>>, E>)
    ensures r.Ok? ==> |r.value| == |srcs|
    ensures r.Ok? ==> forall i :: 0 <= i < |srcs| ==> Compressed.Deserialize(c, srcs[i]) == Ok(r.value[i].inner)
    ensures r.Err? ==> exists k :: FirstDeserializeFailure(c, srcs, k) && Compressed.Deserialize(c, srcs[k]) == Err(r.error)
    decreases |srcs|
  {
    if |srcs| == 0 then Ok([])
    else
      match DeserializeWrapper(c, srcs[0])
      case Err(e) =>
        assert FirstDeserializeFailure(c, srcs, 0);
        Err(e)
      case Ok(w) =>
        match DeserializeElements(c, srcs[1..])
        case Err(e) =>
          FirstDeserializeFailureOfTail(c, srcs);
          Err(e)
        case Ok(rest) => Ok([w] + rest)
  }

  /** The sequence of wrappers the source holds. */
  function DeserializeWrappers<V, E>(c: Capability<V>, source: SeqSource<E>): (r: Result<seq<Wrapper<V>>, E>)
    ensures source.elements.Err? ==> r == Err(source.elements.error)
    ensures source.elements.Ok? ==> r == DeserializeElements(c, source.elements.value)
  {
    match source.elements
    case Err(e) => Err(e)
    case Ok(srcs) => DeserializeElements(c, srcs)
  }

  /** The sequence of values the source holds: its wrappers, unwrapped in order. */
  function Deserialize<V, E>(c: Capability<V>, source: SeqSource<E>): (r: Result<seq<V>, E>)
    ensures DeserializeWrappers(c, source).Err? ==> r == Err(DeserializeWrappers(c, source).error)
    ensures DeserializeWrappers(c, source).Ok? ==> r.Ok? && |r.value| == |DeserializeWrappers(c, source).value|
    ensures DeserializeWrappers(c, source).Ok? ==>
              forall i :: 0 <= i < |r.value| ==> r.value[i] == DeserializeWrappers(c, source).value[i].inner
    ensures source.elements.Err? ==> r == Err(source.elements.error)
    ensures forall k ::
              source.elements.Ok? && FirstDeserializeFailure(c, source.elements.value, k)
              ==> r == Err(Compressed.Deserialize(c, source.elements.value[k]).error)
    ensures && source.elements.Ok?
            && (forall i :: 0 <= i < |source.elements.value| ==> Compressed.Deserialize(c, source.elements.value[i]).Ok?)
            ==> r.Ok?
    ensures source.elements.Ok? && r.Ok? ==>
              && |r.value| == |source.elements.value|
              && forall i :: 0 <= i < |r.value| ==> Compressed.Deserialize(c, source.elements.value[i]) == Ok(r.value[i])
  {
    DeserializeWrappers(c, source).Map(Unwrap)
  }
}
