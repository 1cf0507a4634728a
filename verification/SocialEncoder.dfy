/** The sidecar's social response encoder, and exactly which of its frames the worldserver takes back. */
module SocialEncoder {
  import opened Bytes
  import opened Wrappers
  import opened FlatJson
  import opened JsonWriter
  import opened Utf8Text
  import opened FixedUsd
  import opened SocialFrame

  /** Channels where a gesture can be seen. */
  const SOCIAL_EMOTE_CHANNELS: set<nat> := {1, 2}

  datatype Outgoing =
    | AskAgain
    | Speak(message: bytes, emote: nat, metadata: CallMetadata, proposal: Proposal)

  predicate Unique(ids: seq<bytes>) { forall i, j | 0 <= i < j < |ids| :: ids[i] != ids[j] }

  predicate Citable(kind: Citation, ids: seq<bytes>, bound: nat) {
    |ids| <= bound && Unique(ids) && forall i | 0 <= i < |ids| :: CitationShape(kind, ids[i])
  }

  /** What the encoder insists on before it builds a frame; failing it is its protocol error. */
  predicate Encodable(request: nat, bot: nat, channel: nat, token: bytes, out: Outgoing) {
    && 1 <= request <= UINT64_MAX && 1 <= bot <= UINT64_MAX && channel <= UINT8_MAX && TokenUsable(token)
    && (out.Speak? ==>
          && Citable(Evidence, out.proposal.evidence, MAX_EVIDENCE)
          && Citable(Recollection, out.proposal.memories, MAX_MEMORIES)
          && SpeechCoherent(channel, out.message, out.emote, out.proposal))
  }

  predicate SpeechCoherent(channel: nat, message: bytes, emote: nat, p: Proposal) {
    if emote != 0 then
      && emote in SOCIAL_EMOTE_IDS && message == [] && channel in SOCIAL_EMOTE_CHANNELS
      && p.contribution.Gesture? && p.subject.NoSubject? && p.evidence == [] && p.memories == []
    else if message != [] then
      && |message| <= MAX_RESPONSE_MESSAGE_BYTES && (forall i | 0 <= i < |message| :: message[i] as int >= 0x20)
      && (p.contribution.Answer? || p.contribution.SpecificReaction? || p.contribution.FactFreeBanter?)
    else
      p.contribution.NoContribution? && p.subject.NoSubject? && p.evidence == [] && p.memories == []
  }

  function ControlFields(request: nat, bot: nat, channel: nat, token: bytes, message: bytes, emote: nat,
                         again: nat): seq<Field> {
    [Field("schema_version", Number(SOCIAL_SCHEMA_VERSION)), Field("token", Text(token)), Field("kind", Text("social")),
     Field("social_request_token", Number(request)), Field("bot_guid", Number(bot)),
     Field("speak_on_channel", Number(channel)), Field("message", Text(message)),
     Field("emote_id", Number(emote)), Field("regenerate", Number(again))]
  }

  function CallFields(md: CallMetadata, p: Proposal): seq<Field> {
    [Field("model", Text(md.model)), Field("provider_latency_ms", Number(md.latency)),
     Field("input_tokens", Number(md.input)), Field("output_tokens", Number(md.output)),
     Field("cache_creation_input_tokens", Number(md.cacheCreation)),
     Field("cache_read_input_tokens", Number(md.cacheRead)), Field("cost_usd", Text(md.cost)),
     Field("contribution", Text(ContributionName(p.contribution))),
     Field("claim_subject", Text(ClaimSubjectName(p.subject))), Field("citation_count", Number(|p.evidence|))]
  }

  function CitationFields(kind: Citation, ids: seq<bytes>): (fields: seq<Field>)
    ensures |fields| == |ids| && forall i | 0 <= i < |ids| :: fields[i] == Field(Slot(kind, i), Text(ids[i]))
  {
    seq(|ids|, i requires 0 <= i < |ids| => Field(Slot(kind, i), Text(ids[i])))
  }

  function FrameFields(request: nat, bot: nat, channel: nat, token: bytes, out: Outgoing): (fields: seq<Field>)
    ensures fields != []
  {
    match out
    case AskAgain => ControlFields(request, bot, channel, token, [], 0, 1)
    case Speak(message, emote, md, p) =>
      ControlFields(request, bot, channel, token, message, emote, 0) + CallFields(md, p)
      + CitationFields(Evidence, p.evidence) + [Field("memory_citation_count", Number(|p.memories|))]
      + CitationFields(Recollection, p.memories)
  }

  function EncodeSocialResponse(request: nat, bot: nat, channel: nat, token: bytes, out: Outgoing): Option<bytes> {
    if Encodable(request, bot, channel, token, out)
      then Some(WriteObject(FrameFields(request, bot, channel, token, out)))
    else None
  }

  /** The dictionary as it is filled, slot by slot. */
  method FillPayload(request: nat, bot: nat, channel: nat, token: bytes, out: Outgoing) returns (payload: seq<Field>)
    ensures payload == FrameFields(request, bot, channel, token, out)
  {
    hide Decimal, ControlFields, CallFields;
    if out.AskAgain? { return ControlFields(request, bot, channel, token, [], 0, 1); }
    var p := out.proposal;
    payload := ControlFields(request, bot, channel, token, out.message, out.emote, 0) + CallFields(out.metadata, p);
    ghost var head := payload;
    for index := 0 to |p.evidence|
      invariant payload == head + CitationFields(Evidence, p.evidence)[..index]
    {
      payload := payload + [Field("citation_" + Decimal(index), Text(p.evidence[index]))];
    }
    payload := payload + [Field("memory_citation_count", Number(|p.memories|))];
    head := payload;
    for index := 0 to |p.memories|
      invariant payload == head + CitationFields(Recollection, p.memories)[..index]
    {
      payload := payload + [Field("memory_citation_" + Decimal(index), Text(p.memories[index]))];
    }
  }

  // ---- The written frame, key by key ----

  predicate CountsFit(md: CallMetadata) {
    md.latency <= UINT64_MAX && md.input <= UINT64_MAX && md.output <= UINT64_MAX
    && md.cacheCreation <= UINT64_MAX && md.cacheRead <= UINT64_MAX
  }

  lemma KeysAreDeliverableKeys(request: nat, bot: nat, channel: nat, token: bytes, out: Outgoing)
    requires out.Speak?
    ensures var fields := FrameFields(request, bot, channel, token, out);
      var keys := DeliverableKeys(|out.proposal.evidence|, |out.proposal.memories|);
      |fields| == |keys| && forall i | 0 <= i < |keys| :: fields[i].key == keys[i]
  {
    var c := |out.proposal.evidence|;
    var fields := FrameFields(request, bot, channel, token, out);
    var head := ControlFields(request, bot, channel, token, out.message, out.emote, 0)
      + CallFields(out.metadata, out.proposal);
    var names := CONTROL_KEYS + CALL_KEYS;
    assert forall i | 0 <= i < 19 :: head[i].key == names[i];
  }

  lemma FrameNumbersFit(request: nat, bot: nat, channel: nat, token: bytes, out: Outgoing)
    requires Encodable(request, bot, channel, token, out) && out.Speak? && CountsFit(out.metadata)
    ensures NumbersFit(FrameFields(request, bot, channel, token, out))
  {
    var head := ControlFields(request, bot, channel, token, out.message, out.emote, 0);
    assert NumbersFit(head);
    assert NumbersFit(CallFields(out.metadata, out.proposal));
  }

  // ---- The frame, read back ----

  /** Every field of a list is in the map with its own value. */
  ghost predicate Holds(m: map<bytes, Value>, fields: seq<Field>) {
    forall i | 0 <= i < |fields| :: fields[i].key in m && m[fields[i].key] == fields[i].value
  }

  lemma MapHoldsItsFields(fields: seq<Field>)
    requires KeysDiffer(fields)
    ensures Holds(MapOf(fields), fields) && |MapOf(fields)| == |fields|
  {
    forall i | 0 <= i < |fields|
      ensures fields[i].key in MapOf(fields) && MapOf(fields)[fields[i].key] == fields[i].value
    {
      AddFieldsFinds(map[], fields, i);
    }
    AddFieldsCount(map[], fields);
  }

  lemma HoldsParts(m: map<bytes, Value>, a: seq<Field>, b: seq<Field>)
    requires Holds(m, a + b)
    ensures Holds(m, a) && Holds(m, b)
  {
    forall i | 0 <= i < |a| ensures a[i].key in m && m[a[i].key] == a[i].value { assert (a + b)[i] == a[i]; }
    forall i | 0 <= i < |b| ensures b[i].key in m && m[b[i].key] == b[i].value { assert (a + b)[|a| + i] == b[i]; }
  }

  lemma ControlReadBack(m: map<bytes, Value>, request: nat, bot: nat, channel: nat, token: bytes, message: bytes,
                        emote: nat, again: nat)
    requires Holds(m, ControlFields(request, bot, channel, token, message, emote, again))
    requires TokenUsable(token) && channel <= UINT8_MAX && emote <= UINT32_MAX && again <= 1
    ensures ControlFieldsOk(m, token, request, bot)
    ensures NumberAt(m, "speak_on_channel") == Some(channel) && NumberAt(m, "regenerate") == Some(again)
    ensures NumberAt(m, "emote_id") == Some(emote) && TextAt(m, "message") == Some(message)
  {
    var f := ControlFields(request, bot, channel, token, message, emote, again);
    assert f[0].key == "schema_version" && f[1].key == "token" && f[2].key == "kind";
    assert f[3].key == "social_request_token" && f[4].key == "bot_guid" && f[5].key == "speak_on_channel";
    assert f[6].key == "message" && f[7].key == "emote_id" && f[8].key == "regenerate";
  }

  lemma CallReadBack(m: map<bytes, Value>, md: CallMetadata, p: Proposal)
    requires Holds(m, CallFields(md, p)) && Holds(m, [Field("memory_citation_count", Number(|p.memories|))])
    ensures TextAt(m, "model") == Some(md.model) && NumberAt(m, "provider_latency_ms") == Some(md.latency)
    ensures NumberAt(m, "input_tokens") == Some(md.input) && NumberAt(m, "output_tokens") == Some(md.output)
    ensures NumberAt(m, "cache_creation_input_tokens") == Some(md.cacheCreation)
    ensures NumberAt(m, "cache_read_input_tokens") == Some(md.cacheRead)
    ensures TextAt(m, "cost_usd") == Some(md.cost)
    ensures TextAt(m, "contribution") == Some(ContributionName(p.contribution))
    ensures TextAt(m, "claim_subject") == Some(ClaimSubjectName(p.subject))
    ensures NumberAt(m, "citation_count") == Some(|p.evidence|)
    ensures NumberAt(m, "memory_citation_count") == Some(|p.memories|)
  {
    var f := CallFields(md, p);
    assert f[0].key == "model" && f[1].key == "provider_latency_ms" && f[2].key == "input_tokens";
    assert f[3].key == "output_tokens" && f[4].key == "cache_creation_input_tokens";
    assert f[5].key == "cache_read_input_tokens" && f[6].key == "cost_usd" && f[7].key == "contribution";
    assert f[8].key == "claim_subject" && f[9].key == "citation_count";
    assert [Field("memory_citation_count", Number(|p.memories|))][0].key == "memory_citation_count";
  }

  lemma {:induction false} CitationsReadBack(m: map<bytes, Value>, kind: Citation, ids: seq<bytes>, n: nat)
    requires Holds(m, CitationFields(kind, ids)) && Unique(ids) && n <= |ids|
    requires forall i | 0 <= i < |ids| :: CitationShape(kind, ids[i])
    ensures ReadCitations(m, kind, n) == Some(ids[..n])
  {
    if n > 0 {
      CitationsReadBack(m, kind, ids, n - 1);
      var field := CitationFields(kind, ids)[n - 1];
      assert field.key in m && m[field.key] == field.value;
      assert ids[..n] == ids[..n - 1] + [ids[n - 1]];
    }
  }

  /** The pieces of the written frame, found in the map it denotes. */
  lemma FramePieces(m: map<bytes, Value>, request: nat, bot: nat, channel: nat, token: bytes, out: Outgoing)
    requires out.Speak? && Holds(m, FrameFields(request, bot, channel, token, out))
    ensures Holds(m, ControlFields(request, bot, channel, token, out.message, out.emote, 0))
    ensures Holds(m, CallFields(out.metadata, out.proposal))
    ensures Holds(m, CitationFields(Evidence, out.proposal.evidence))
    ensures Holds(m, [Field("memory_citation_count", Number(|out.proposal.memories|))])
    ensures Holds(m, CitationFields(Recollection, out.proposal.memories))
  {
    var control := ControlFields(request, bot, channel, token, out.message, out.emote, 0);
    var call := CallFields(out.metadata, out.proposal);
    var evidence := CitationFields(Evidence, out.proposal.evidence);
    var count := [Field("memory_citation_count", Number(|out.proposal.memories|))];
    var memories := CitationFields(Recollection, out.proposal.memories);
    HoldsParts(m, control + call + evidence + count, memories);
    HoldsParts(m, control + call + evidence, count);
    HoldsParts(m, control + call, evidence);
    HoldsParts(m, control, call);
  }

  lemma CallFieldsReadBack(m: map<bytes, Value>, md: CallMetadata, p: Proposal)
    requires Holds(m, CallFields(md, p)) && Holds(m, [Field("memory_citation_count", Number(|p.memories|))])
    requires |m| == 20 + |p.evidence| + |p.memories| && |p.evidence| <= MAX_EVIDENCE && |p.memories| <= MAX_MEMORIES
    requires Accepted(md.cost)
    ensures CallFieldsOk(m) <==> ModelUsable(md.model)
    ensures CallFieldsOk(m) ==> MetadataIn(m) == md
  {
    CallReadBack(m, md, p);
    NamesRoundTrip(p.contribution, p.subject);
  }

  lemma DeliverableReadsBack(m: map<bytes, Value>, request: nat, bot: nat, channel: nat, token: bytes, out: Outgoing)
    requires Encodable(request, bot, channel, token, out) && out.Speak?
    requires Holds(m, FrameFields(request, bot, channel, token, out))
    requires NumberAt(m, "speak_on_channel") == Some(channel) && NumberAt(m, "emote_id") == Some(out.emote)
    requires TextAt(m, "message") == Some(out.message)
    requires |m| == 20 + |out.proposal.evidence| + |out.proposal.memories|
    requires Coherent(out.message, out.emote, out.proposal) && Accepted(out.metadata.cost)
    ensures ParseDeliverable(m, request, bot)
         == if ModelUsable(out.metadata.model)
            then Some(Deliverable(request, bot, channel, out.message, out.emote, out.metadata, out.proposal)) else None
  {
    var p := out.proposal;
    FramePieces(m, request, bot, channel, token, out);
    CallFieldsReadBack(m, out.metadata, p);
    CallReadBack(m, out.metadata, p);
    NamesRoundTrip(p.contribution, p.subject);
    CitationsReadBack(m, Evidence, p.evidence, |p.evidence|);
    CitationsReadBack(m, Recollection, p.memories, |p.memories|);
    assert p.evidence[..|p.evidence|] == p.evidence && p.memories[..|p.memories|] == p.memories;
  }

  /** What a frame is read as, once its bytes are back to a map: the early key cap decides first. */
  lemma FrameReadsBack(m: map<bytes, Value>, request: nat, bot: nat, channel: nat, token: bytes, out: Outgoing)
    requires Encodable(request, bot, channel, token, out) && out.Speak?
    requires Holds(m, FrameFields(request, bot, channel, token, out))
    requires |m| == 20 + |out.proposal.evidence| + |out.proposal.memories|
    requires Coherent(out.message, out.emote, out.proposal) && Accepted(out.metadata.cost)
    ensures ParseFields(m, token, request, bot)
         == if CitesAtMost23(out) && ModelUsable(out.metadata.model)
            then Some(Deliverable(request, bot, channel, out.message, out.emote, out.metadata, out.proposal)) else None
  {
    FramePieces(m, request, bot, channel, token, out);
    assert out.emote <= 163;
    ControlReadBack(m, request, bot, channel, token, out.message, out.emote, 0);
    DeliverableReadsBack(m, request, bot, channel, token, out);
  }

  predicate CitesAtMost23(out: Outgoing)
    requires out.Speak?
  {
    |out.proposal.evidence| + |out.proposal.memories| <= 23
  }

  /** Checkable before encoding, and exactly what the other side needs beyond coherence. */
  predicate Survives(out: Outgoing)
    requires out.Speak?
  {
    CitesAtMost23(out) && CountsFit(out.metadata) && ModelUsable(out.metadata.model)
  }

  lemma FrameKeysDiffer(request: nat, bot: nat, channel: nat, token: bytes, out: Outgoing)
    requires Encodable(request, bot, channel, token, out) && out.Speak?
    ensures var fields := FrameFields(request, bot, channel, token, out);
      KeysDiffer(fields) && |fields| == 20 + |out.proposal.evidence| + |out.proposal.memories|
  {
    KeysAreDeliverableKeys(request, bot, channel, token, out);
    DeliverableKeysDistinct(|out.proposal.evidence|, |out.proposal.memories|);
  }

  /**
   * A coherent frame the sidecar encodes is accepted, and read back as exactly what was said, if and
   * only if it cites at most twenty-three things, its counts fit 64 bits, and its model name is one
   * clean line. The encoder itself allows twenty-four evidence and twelve memory citations.
   */
  lemma EncodedFrameIsAcceptedIff(request: nat, bot: nat, channel: nat, token: bytes, out: Outgoing)
    requires Encodable(request, bot, channel, token, out) && out.Speak?
    requires Coherent(out.message, out.emote, out.proposal) && Accepted(out.metadata.cost)
    ensures var frame := EncodeSocialResponse(request, bot, channel, token, out).value;
      ParseSocialResponse(frame, token, request, bot)
        == if Survives(out)
           then Some(Deliverable(request, bot, channel, out.message, out.emote, out.metadata, out.proposal)) else None
  {
    var fields := FrameFields(request, bot, channel, token, out);
    FrameKeysDiffer(request, bot, channel, token, out);
    OverflowingObjectIsRefused(fields);
    if NumbersFit(fields) {
      CountsAreInTheFrame(request, bot, channel, token, out);
      WrittenObjectIsReadBack(fields);
      MapHoldsItsFields(fields);
      FrameReadsBack(MapOf(fields), request, bot, channel, token, out);
    } else if CountsFit(out.metadata) {
      FrameNumbersFit(request, bot, channel, token, out);
    }
  }

  lemma CountsAreInTheFrame(request: nat, bot: nat, channel: nat, token: bytes, out: Outgoing)
    requires out.Speak? && NumbersFit(FrameFields(request, bot, channel, token, out))
    ensures CountsFit(out.metadata)
  {
    var fields := FrameFields(request, bot, channel, token, out);
    var call := CallFields(out.metadata, out.proposal);
    assert forall i | 0 <= i < 10 :: fields[9 + i] == call[i];
    assert call[1].value == Number(out.metadata.latency) && call[2].value == Number(out.metadata.input);
    assert call[3].value == Number(out.metadata.output) && call[4].value == Number(out.metadata.cacheCreation);
    assert call[5].value == Number(out.metadata.cacheRead);
  }

  /** A request to try again always reads back as one. */
  lemma RegenerationIsAccepted(request: nat, bot: nat, channel: nat, token: bytes)
    requires Encodable(request, bot, channel, token, AskAgain)
    ensures var frame := EncodeSocialResponse(request, bot, channel, token, AskAgain).value;
      ParseSocialResponse(frame, token, request, bot) == Some(Regeneration(request, bot, channel))
  {
    var fields := ControlFields(request, bot, channel, token, [], 0, 1);
    FixedMarks();
    assert forall i | 0 <= i < 9 :: fields[i].key == FIXED_KEYS[i];
    WrittenObjectIsReadBack(fields);
    MapHoldsItsFields(fields);
    ControlReadBack(MapOf(fields), request, bot, channel, token, [], 0, 1);
  }
}
