/** The job envelope, read by the publisher and read again by the worker. */
module JobEnvelope {
  import opened Wrappers
  import opened JobPayload
  import opened TextNormalization

  const JOB_CONTRACT_VERSION := 1
  const JOB_DATA_MAXIMUM_BYTES := 16384

  /** What came as an envelope: no plain record (or one that cannot be read), or its three fields. The version is
      present when it is an integer. */
  datatype Data = NotARecord | Fields(version: Option<int>, correlationId: Value, payload: Value)

  datatype Envelope = Envelope(correlationId: string, payload: Ref)

  predicate IsRecord(h: Heap, v: Value) {
    v.Object? && At(h, v.ref).PlainRecord?
  }

  /** parseJobEnvelope; nothing where it throws. The size of the serialized envelope is absent where serializing throws. */
  function ParseJobEnvelope(h: Heap, data: Data, bytes: Option<nat>): Option<Envelope> {
    if data.NotARecord? || data.version != Some(JOB_CONTRACT_VERSION) then None
    else if !data.correlationId.Text? || !ValidIdentifier(data.correlationId.s) then None
    else if !IsRecord(h, data.payload) then None
    else if Check(h, true, data.payload, {}, 0).Rejected? then None
    else if bytes.None? || bytes.value > JOB_DATA_MAXIMUM_BYTES then None
    else Some(Envelope(data.correlationId.s, data.payload.ref))
  }

  /** The shape of a correlation id: at most 128 letters, digits and marks, the first a letter or digit. */
  predicate IsCorrelationId(id: string) {
    && 1 <= |id| <= 128
    && forall i | 0 <= i < |id| ::
         'A' <= id[i] <= 'Z' || 'a' <= id[i] <= 'z' || '0' <= id[i] <= '9' || (i > 0 && id[i] in {'.', '_', ':', '-'})
  }

  /** An envelope as the contract wants it: version 1, a correlation id, a plain record whose unfolding is finite and at most
      twelve deep, and at most 16 KiB in all. */
  ghost predicate Acceptable(h: Heap, data: Data, bytes: Option<nat>) {
    && data.Fields? && data.version == Some(1)
    && data.correlationId.Text? && IsCorrelationId(data.correlationId.s)
    && data.payload.Object? && At(h, data.payload.ref).PlainRecord?
    && (exists t :: Unfolds(h, data.payload, t) && Height(t) <= 12)
    && bytes.Some? && bytes.value <= 16_384
  }

  lemma IdentifierWrittenOut(id: string)
    ensures ValidIdentifier(id) <==> IsCorrelationId(id)
  {
  }

  /** Exactly the acceptable envelopes are parsed, each to its correlation id and payload. */
  lemma ParsedExactlyWhenAcceptable(h: Heap, data: Data, bytes: Option<nat>)
    ensures ParseJobEnvelope(h, data, bytes).Some? <==> Acceptable(h, data, bytes)
    ensures Acceptable(h, data, bytes) ==>
            ParseJobEnvelope(h, data, bytes) == Some(Envelope(data.correlationId.s, data.payload.ref))
  {
    hide ValidIdentifier, IsCorrelationId;
    if data.Fields? {
      AcceptedWrittenOut(h, data.payload);
      if Acceptable(h, data, bytes) {
        var t :| Unfolds(h, data.payload, t) && Height(t) <= 12;
        assert Unfolds(h, data.payload, t);
      }
      if data.correlationId.Text? {
        IdentifierWrittenOut(data.correlationId.s);
      }
    }
  }

  /** The validator's verdict in the words of the contract. */
  lemma AcceptedWrittenOut(h: Heap, v: Value)
    ensures Check(h, true, v, {}, 0).Accepted? <==> exists t :: Unfolds(h, v, t) && Height(t) <= 12
  {
    AcceptsExactlyFiniteTrees(h, true, v);
    if Check(h, true, v, {}, 0).Accepted? {
      var t :| Unfolds(h, v, t) && Height(t) <= MAXIMUM_DEPTH;
      assert Height(t) <= 12;
    } else if exists t :: Unfolds(h, v, t) && Height(t) <= 12 {
      var t :| Unfolds(h, v, t) && Height(t) <= 12;
      assert Height(t) <= MAXIMUM_DEPTH;
    }
  }

  /** The value in the second heap is a serialized copy: a plain record with the same unfolding. */
  ghost predicate CopyOf(h: Heap, original: Ref, g: Heap, copy: Ref) {
    && IsRecord(g, Object(copy))
    && forall t :: Unfolds(h, Object(original), t) ==> Unfolds(g, Object(copy), t)
  }

  /** What the publisher accepted the worker accepts after the transport, however its objects were shared. */
  lemma AcceptedEnvelopesSurviveTransport(h: Heap, data: Data, g: Heap, copy: Ref, bytes: nat)
    requires ParseJobEnvelope(h, data, Some(bytes)).Some?
    requires CopyOf(h, data.payload.ref, g, copy)
    ensures ParseJobEnvelope(g, Fields(Some(JOB_CONTRACT_VERSION), data.correlationId, Object(copy)), Some(bytes))
            == Some(Envelope(data.correlationId.s, copy))
  {
    AcceptsExactlyFiniteTrees(h, true, data.payload);
    AcceptsExactlyFiniteTrees(g, true, Object(copy));
    var t :| Unfolds(h, data.payload, t) && Height(t) <= MAXIMUM_DEPTH;
    assert Unfolds(g, Object(copy), t);
  }
}
