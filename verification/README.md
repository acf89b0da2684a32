# ark-serde-compat, modelled in Dafny

This is a model of the adapter layer of `ark-serde-compat`. The adapter lets a value with a
canonical byte encoding sit inside a serde-serialized structure. Such values are curve
points, field elements and pairing outputs, and their encoding comes in a compressed and an
uncompressed form. Serde sees only a byte blob.

The model has these parts:

- `Canonical`: the external canonical-encoding capability of a value type `V`. It is a
  record `Capability<V>` holding the four routines (`serializeCompressed`,
  `serializeUncompressed`, `deserializeCompressed`, `deserializeUncompressed`) and the
  type's name. `Compress` (`Yes` / `No`) names the wire form. The capability's own round
  trip is the predicate `RoundTrips`. It is assumed by the lemmas that need it and is
  never asserted of the capability.
- `Serde`: the serializer and deserializer primitives the adapter touches. These are
  `serialize_bytes` and `Error::custom` (`Sink`), the one byte blob handed to the visitor
  with `Error::invalid_value` (`Source`), and sequence serialization and deserialization
  (`SeqSink`, `SeqSource`).
- `Selector`: one adapter shape, parametrised by the wire form. It holds the visitor's
  `expecting` and `visit_bytes`, and `serialize` and `deserialize`.
- `Compressed` and `Uncompressed`: the two modules of the crate. Each is an instance of
  `Selector`, and each contract names only its own form's routines and its own failure
  message.
- `Vec`: the collection lifter. It wraps each element, serializes the sequence through the
  compressed selector, and on the way back deserializes the wrappers and unwraps them.
- `SerdeCompat`: the crate-level `serialize` and `deserialize`, which re-export the
  compressed pair.
- `Channel` and `RoundTrip`: an in-memory format that frames byte blobs, standing in for
  bincode in the tests. Round trips, byte counts and the scalar test are stated as lemmas
  over it, assuming the format is lossless (`Lossless`).

The visitor's `expecting` is `Selector.Expecting`. It supplies the expectation text of the
invalid-value error.

## Model

| member | source | states |
|---|---|---|
| Selector.Expecting | src/lib.rs:36-38 | the visitor's expectation text is exactly the target type's name, the same for both forms |
| Selector.VisitBytes | src/lib.rs:36-46 | decoding succeeds exactly when the form's decoder succeeds, and then returns its value unchanged; on failure the error is the invalid-value error built from the received bytes and the type's name as the expectation |
| Selector.Serialize | src/lib.rs:50-60 | a failed encode gives the sink's custom error with the form's fixed message, whatever the cause; a successful encode passes exactly the encoded bytes to the byte primitive and returns the sink's result unchanged |
| Selector.Deserialize | src/lib.rs:63-69 | the source's own error comes back unchanged; a received blob that decodes gives the decoded value; one that does not gives the invalid-value error carrying that blob and the type's name |
| Compressed.VisitBytes | src/lib.rs:40-46 | the compressed visitor returns the compressed decoder's value, or an invalid-value error with the received bytes and the type's name |
| Compressed.Serialize | src/lib.rs:50-60 | encode failure gives exactly `custom("serialize_compressed failed")`; on success the compressed encoding alone goes to `serialize_bytes` and its result is returned |
| Compressed.Deserialize | src/lib.rs:62-69 | the source's error passes through; otherwise the received blob is handed to the compressed visitor |
| Uncompressed.VisitBytes | src/lib.rs:88-94 | the uncompressed visitor returns the uncompressed decoder's value, or an invalid-value error with the received bytes and the type's name |
| Uncompressed.Serialize | src/lib.rs:98-108 | encode failure gives exactly `custom("serialize_uncompressed failed")`; on success the uncompressed encoding alone goes to `serialize_bytes` and its result is returned |
| Uncompressed.Deserialize | src/lib.rs:110-117 | the source's error passes through; otherwise the received blob is handed to the uncompressed visitor |
| Vec.Wrap | src/lib.rs:138 | wrapping keeps the length, and wrapper i holds element i |
| Vec.Unwrap | src/lib.rs:148 | unwrapping keeps the length, and element i is the field of wrapper i |
| Vec.UnwrapWrap | src/lib.rs:138-148 | unwrapping the wrapped sequence gives back the original sequence |
| Vec.SerializeWrapper | src/lib.rs:127-128 | a wrapper serializes as its field through the compressed selector: the fixed compressed failure message, or exactly the compressed encoding handed to the element serializer |
| Vec.DeserializeWrappers | src/lib.rs:148 | the format's sequence error is returned unchanged; otherwise the wrappers are those deserialized from the element sources, in order |
| Vec.DeserializeWrapper | src/lib.rs:127-130 | a wrapper deserializes exactly when its field deserializes through the compressed selector, holding that value or carrying that error |
| Vec.SerializeElements | src/lib.rs:139 | on success item i is the compressed serialization of element i, for every i and no more; on failure the error is that of the first element whose serialization fails |
| Vec.Serialize | src/lib.rs:132-140 | the length hint is the input's length and its error passes through; otherwise the result is the first failing element's error, or the sink's end applied to the element outputs in input order |
| Vec.DeserializeElements | src/lib.rs:148 | on success there is one wrapper per element source, in order, each holding that source's compressed value; on failure the error is that of the first source that fails |
| Vec.Deserialize | src/lib.rs:142-149 | the wrappers' error is returned unchanged; on success the result has as many values as wrappers, in order, each the wrapper's field; it succeeds exactly when every element source decodes |
| SerdeCompat.Serialize | src/lib.rs:152 | the crate-level serialize is the compressed one, with its message and its pass-through |
| SerdeCompat.Deserialize | src/lib.rs:152 | the crate-level deserialize is the compressed one, and a decodable blob gives the compressed decoder's value |
| RoundTrip.SelectorRoundTrip | src/lib.rs:183-205 | for either form, if the capability round-trips the value and the format is lossless, deserializing the serialized bytes gives the value back and consumes as many bytes as were written |
| RoundTrip.EqualEncodingsEqualOutput | src/lib.rs:303-313 | when a value's two encodings are the same bytes, both selectors give the sink the same blob and return the same result |
| RoundTrip.CoincidingEncodingsRoundTrip | src/lib.rs:303-323 | when the encodings coincide, both selectors write the same wire bytes, and reading them with either selector gives the value back and consumes every byte |
| RoundTrip.FailedEncodesDifferOnlyByMessage | src/lib.rs:55-106 | when both encodes fail (the compressed message at lines 55-58, the uncompressed one at 104-106), the two selectors' errors are equal exactly when the sink's custom error does not tell the two fixed messages apart |
| RoundTrip.SerializeDiscardsCause | src/lib.rs:56-58 | two failed encodes with any causes give the same serializer error: the cause is dropped |
| RoundTrip.CompressedIgnoresUncompressed | src/lib.rs:40-69 | the compressed selector's results depend only on the compressed routines and the type name |
| RoundTrip.UncompressedIgnoresCompressed | src/lib.rs:88-117 | the uncompressed selector's results depend only on the uncompressed routines and the type name |
| RoundTrip.VecRoundTrip | src/lib.rs:127-149 | if every element round-trips in the compressed form and the format is lossless, the sequence comes back element for element, in order, consuming every byte written |

## Left out

- The canonical encode and decode algorithms for curve points, field elements and pairing
  outputs belong to an external library. They are the parameters of `Capability`, and
  their round trip is a hypothesis (`RoundTrips`), not a theorem.
- The failure type of those routines is external. `SerializationError` keeps only an
  opaque detail, which the adapter never reads.
- Serde's visitor dispatch is not modelled. This covers `visit_borrowed_bytes` and
  `visit_byte_buf` forwarding to `visit_bytes`, and the `invalid_type` errors for other
  input shapes. Instead, a `Source` holds the one blob the format supplies, or the
  format's own error.
- `fmt::Formatter` and the exact text of `type_name` are not modelled. The type name is an
  opaque string in the capability.
- The derived newtype-struct framing of the sequence wrapper is taken as transparent. The
  wrapper's field goes straight to the element serializer.
- Bincode's length-prefix framing is not modelled. It is the abstract `Channel` /
  `SeqChannel`, whose losslessness the round-trip lemmas assume.
- `no_std` / `alloc` / feature gating, `PhantomData`, lifetimes and the `Copy` bound have
  no counterpart in the model.
- Random test values are not modelled. The tests' per-type cases are one lemma over an
  arbitrary value type.
- There is no uncompressed collection lifter. The crate provides only the compressed one.
- The adapter adds no corruption check and no check that the decoder consumed the whole
  blob. The bytes are handed to the decoder as they are, and whatever it accepts is
  returned. Rejecting short, long or bit-flipped input is left to the external decoder.
  The model states only what the adapter adds: a failed decode always becomes the
  invalid-value error.

## Notes

- The test named `g1_projective` (src/lib.rs:208-217) builds a `G1Affine` value, so it
  repeats the `g1` test. The projective compressed case is covered only by the G2 test.
  The adapter is generic over the value type, so this does not affect the model.
