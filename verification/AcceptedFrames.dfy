/**
 * What the worldserver's readers refuse, on every payload there is: a frame is accepted for one address only, as one
 * kind of frame only, and with contents within the bounds of its kind.
 */
module AcceptedFrames {
  import opened Bytes
  import opened Wrappers
  import opened FlatJson
  import opened JsonWriter
  import opened Utf8Text
  import opened FixedUsd
  import opened SocialFrame
  import opened SocialEncoder
  import opened OtherFrames

  // ---- One address ----

  /** The bridge token and the two numbers a reader expects its frame to carry. */
  datatype Address = Address(token: bytes, request: nat, bot: nat)

  datatype Reader = ReadsSocial | ReadsMemory | ReadsBiography | ReadsAssessment

  /** Whether a reader takes a payload for an address. Assessments name no bot. */
  predicate Takes(reader: Reader, payload: bytes, a: Address) {
    match reader
    case ReadsSocial => ParseSocialResponse(payload, a.token, a.request, a.bot).Some?
    case ReadsMemory =>
      Parse(payload).Some? && ParseMemoryFields(Parse(payload).value, a.token, a.request, a.bot).Some?
    case ReadsBiography =>
      Parse(payload).Some? && ParseBiographyFields(Parse(payload).value, a.token, a.request, a.bot).Some?
    case ReadsAssessment =>
      Parse(payload).Some? && ParseAssessmentFields(Parse(payload).value, a.token, a.request).Some?
  }

  /** Whatever the payload: at most one reader takes it, for at most one bridge token, request, and bot. */
  lemma OneReaderOneAddress(payload: bytes, r: Reader, a: Address, s: Reader, b: Address)
    requires Takes(r, payload, a) && Takes(s, payload, b)
    ensures r == s && a.token == b.token && a.request == b.request && (r != ReadsAssessment ==> a.bot == b.bot)
    ensures 32 <= |a.token| <= 256
  {
    hide Parse, ReadMemories, ReadBiography, ReadCapabilities, ReadCitations, CallFieldsOk, AssessmentShape;
    KindIs(payload, r, a);
    KindIs(payload, s, b);
  }

  function KindOf(reader: Reader): bytes {
    match reader
    case ReadsSocial => "social"
    case ReadsMemory => "memory"
    case ReadsBiography => "biography"
    case ReadsAssessment => "roleplay_assessment"
  }

  lemma KindIs(payload: bytes, reader: Reader, a: Address)
    requires Takes(reader, payload, a)
    ensures Parse(payload).Some? && TextAt(Parse(payload).value, "kind") == Some(KindOf(reader))
  {
    hide Parse, ReadMemories, ReadBiography, ReadCapabilities, ParseDeliverable, AssessmentShape;
  }

  /** A frame the sidecar encodes for one address is refused at every other. */
  lemma FrameForAnotherIsRefused(channel: nat, out: Outgoing, a: Address, b: Address)
    requires Encodable(a.request, a.bot, channel, a.token, out) && a != b
    ensures ParseSocialResponse(EncodeSocialResponse(a.request, a.bot, channel, a.token, out).value,
                                b.token, b.request, b.bot) == None
  {
    var fields := FrameFields(a.request, a.bot, channel, a.token, out);
    FrameKeysAreDistinct(channel, out, a);
    OverflowingObjectIsRefused(fields);
    if NumbersFit(fields) {
      WrittenObjectIsReadBack(fields);
      MapHoldsItsFields(fields);
      CarriesItsAddress(MapOf(fields), channel, out, a);
    }
    hide WriteObject, Parse, FrameFields, ParseDeliverable, Encodable;
  }

  lemma FrameKeysAreDistinct(channel: nat, out: Outgoing, a: Address)
    requires Encodable(a.request, a.bot, channel, a.token, out)
    ensures KeysDiffer(FrameFields(a.request, a.bot, channel, a.token, out))
  {
    if out.Speak? {
      FrameKeysDiffer(a.request, a.bot, channel, a.token, out);
    } else {
      FixedMarks();
      var fields := ControlFields(a.request, a.bot, channel, a.token, [], 0, 1);
      assert forall i | 0 <= i < 9 :: fields[i].key == FIXED_KEYS[i];
    }
  }

  lemma CarriesItsAddress(m: map<bytes, Value>, channel: nat, out: Outgoing, a: Address)
    requires Holds(m, FrameFields(a.request, a.bot, channel, a.token, out))
    ensures TextAt(m, "token") == Some(a.token) && NumberAt(m, "social_request_token") == Some(a.request)
    ensures NumberAt(m, "bot_guid") == Some(a.bot)
  {
    var fields := FrameFields(a.request, a.bot, channel, a.token, out);
    assert fields[1] == Field("token", Text(a.token)) && fields[3] == Field("social_request_token", Number(a.request));
    assert fields[4] == Field("bot_guid", Number(a.bot));
  }

  // ---- Contents within bounds ----

  predicate Line(text: bytes, most: nat) {
    |text| <= most && (forall i | 0 <= i < |text| :: text[i] as int >= 0x20) && Utf8Valid(text)
  }

  /** A letter and digits. */
  predicate LetterAndDigits(letter: char, id: bytes) { |id| >= 2 && id[0] == letter && AllDigits(id[1..]) }

  lemma {:induction false} ReadCitationsAre(fields: map<bytes, Value>, kind: Citation, n: nat)
    requires ReadCitations(fields, kind, n).Some?
    ensures var ids := ReadCitations(fields, kind, n).value;
      |ids| == n && Unique(ids) && forall i | 0 <= i < n :: CitationShape(kind, ids[i])
  {
    hide CitationShape, TextAt, Slot;
    if n > 0 { ReadCitationsAre(fields, kind, n - 1); }
  }

  predicate CitesNothing(p: Proposal) { p.evidence == [] && p.memories == [] }

  /** One answer, in the wire's own terms: a known gesture without words, one bounded clean line, or silence. */
  predicate OneAnswer(message: bytes, emote: nat, p: Proposal) {
    if emote != 0 then
      && message == [] && p.contribution == Gesture && p.subject == NoSubject && CitesNothing(p)
      && emote in {5, 17, 21, 23, 48, 49, 60, 67, 78, 83, 85, 97, 101, 120, 163}
    else if message == [] then p.contribution == NoContribution && p.subject == NoSubject && CitesNothing(p)
    else
      && Line(message, 240) && (p.subject == NoSubject <==> CitesNothing(p))
      && (p.contribution == Answer || p.contribution == SpecificReaction || p.contribution == FactFreeBanter)
  }

  /** Few distinct citations, each a letter and digits. */
  predicate CitesProperly(p: Proposal) {
    && |p.evidence| <= 24 && |p.memories| <= 12 && |p.evidence| + |p.memories| <= 23
    && Unique(p.evidence) && Unique(p.memories)
    && (forall i | 0 <= i < |p.evidence| :: LetterAndDigits('g', p.evidence[i]))
    && (forall i | 0 <= i < |p.memories| :: LetterAndDigits('m', p.memories[i]) && p.memories[i][1] != '0')
  }

  lemma CoherentIsOneAnswer(message: bytes, emote: nat, p: Proposal)
    ensures Coherent(message, emote, p) <==> OneAnswer(message, emote, p)
  {
    assert Utf8Valid([]);
    hide Utf8Valid;
  }

  lemma DeliverableContents(fields: map<bytes, Value>, request: nat, bot: nat)
    requires NumberAt(fields, "speak_on_channel").Some? && NumberAt(fields, "emote_id").Some?
    requires TextAt(fields, "message").Some? && |fields| <= 43
    requires ParseDeliverable(fields, request, bot).Some?
    ensures var r := ParseDeliverable(fields, request, bot).value;
      && r.Deliverable? && r.requestToken == request && r.bot == bot
      && r.channel == NumberAt(fields, "speak_on_channel").value
      && OneAnswer(r.message, r.emote, r.proposal) && CitesProperly(r.proposal)
      && r.metadata.model != [] && Line(r.metadata.model, 64) && Accepted(r.metadata.cost)
  {
    hide ReadCitations, Utf8Valid, Accepted, Coherent, OneAnswer, TextAt, ContributionFromName, ClaimSubjectFromName;
    ReadCitationsAre(fields, Evidence, NumberAt(fields, "citation_count").value);
    ReadCitationsAre(fields, Recollection, NumberAt(fields, "memory_citation_count").value);
    var r := ParseDeliverable(fields, request, bot).value;
    CoherentIsOneAnswer(r.message, r.emote, r.proposal);
  }

  /** Whatever the payload: what is delivered is one answer, for the exchange it was read for, citing few real names. */
  lemma DeliverableIsOneAnswer(payload: bytes, token: bytes, request: nat, bot: nat)
    requires ParseSocialResponse(payload, token, request, bot).Some?
    ensures var r := ParseSocialResponse(payload, token, request, bot).value;
      && r.requestToken == request && r.bot == bot && r.channel <= 255
      && (r.Deliverable? ==>
            && OneAnswer(r.message, r.emote, r.proposal) && CitesProperly(r.proposal)
            && r.metadata.model != [] && Line(r.metadata.model, 64) && Accepted(r.metadata.cost))
  {
    var fields := Parse(payload).value;
    hide Parse, ParseDeliverable, OneAnswer, CitesProperly, Accepted, Line;
    if NumberAt(fields, "regenerate").value == 0 { DeliverableContents(fields, request, bot); }
  }

  lemma {:induction false} ReadMemoriesAre(fields: map<bytes, Value>, n: nat)
    requires ReadMemories(fields, n).Some?
    ensures |ReadMemories(fields, n).value| == n && forall m | m in ReadMemories(fields, n).value :: MemoryOk(m)
  {
    hide MemoryOk;
    if n > 0 {
      ReadMemoriesAre(fields, n - 1);
      MemoryAtIsOk(fields, n - 1);
    }
  }

  lemma MemoryAtIsOk(fields: map<bytes, Value>, i: nat)
    ensures MemoryAt(fields, i).Some? ==> MemoryOk(MemoryAt(fields, i).value)
  {
    hide MemorySlot, MemoryOk;
  }

  /** A bounded paraphrase about somebody, with one of the three scopes, and traced to an event. */
  predicate ProperMemory(m: Memory) {
    && 0 < |m.paraphrase| <= 512 && m.about > 0
    && (m.scope == "public" || m.scope == "party" || m.scope == "whisper")
    && |m.source| == 36 && m.source[..4] == "evt_"
    && forall i | 4 <= i < 36 :: '0' <= m.source[i] <= '9' || 'a' <= m.source[i] <= 'f'
  }

  lemma MemoryOkIsProper(m: Memory)
    ensures MemoryOk(m) <==> ProperMemory(m)
  {
  }

  /** Extracted memories: at most four, each of them proper. */
  lemma AcceptedMemoriesAreBounded(fields: map<bytes, Value>, token: bytes, request: nat, bot: nat)
    requires ParseMemoryFields(fields, token, request, bot).Some?
    ensures var response := ParseMemoryFields(fields, token, request, bot).value;
      0 < |response.thread| <= 64 && |response.memories| <= 4 && forall m | m in response.memories :: ProperMemory(m)
  {
    hide ReadMemories;
    ReadMemoriesAre(fields, NumberAt(fields, "memory_count").value);
    forall m: Memory ensures MemoryOk(m) <==> ProperMemory(m) { MemoryOkIsProper(m); }
  }

  predicate ProperAddress(a: Address) {
    32 <= |a.token| <= 256 && 0 < a.request < 0x1_0000_0000_0000_0000 && 0 < a.bot < 0x1_0000_0000_0000_0000
  }

  /** And up to four proper memories of a thread always arrive. */
  lemma ProperMemoriesArrive(a: Address, thread: bytes, memories: seq<Memory>)
    requires ProperAddress(a) && 0 < |thread| <= 64 && |memories| <= 4
    requires forall i | 0 <= i < |memories| :: ProperMemory(memories[i]) && memories[i].about < 0x1_0000_0000_0000_0000
    ensures var parsed := Parse(WriteObject(MemoryFrameFields(a.request, a.bot, thread, memories, a.token)));
      parsed.Some?
      && ParseMemoryFields(parsed.value, a.token, a.request, a.bot) == Some(MemoryResponse(thread, memories))
  {
    forall m: Memory ensures MemoryOk(m) <==> ProperMemory(m) { MemoryOkIsProper(m); }
    hide MemoryOk, ProperMemory, WriteObject, Parse, ParseMemoryFields;
    MemoryFrameRoundTrip(a.request, a.bot, thread, memories, a.token);
  }

  lemma {:induction false} ReadBiographyIs(fields: map<bytes, Value>, n: nat)
    requires n <= 8 && ReadBiography(fields, n).Some?
    ensures |ReadBiography(fields, n).value| == n
    ensures forall text | text in ReadBiography(fields, n).value :: text != [] && Line(text, 240)
  {
    hide Utf8Valid;
    if n > 0 { ReadBiographyIs(fields, n - 1); }
  }

  /** A biography: eight lines, none empty, all clean and bounded. */
  lemma AcceptedBiographyIsEightLines(fields: map<bytes, Value>, token: bytes, request: nat, bot: nat)
    requires ParseBiographyFields(fields, token, request, bot).Some?
    ensures var texts := ParseBiographyFields(fields, token, request, bot).value;
      |texts| == 8 && forall text | text in texts :: text != [] && Line(text, 240)
  {
    ReadBiographyIs(fields, 8);
  }

  /** And eight such lines always arrive, in order. */
  lemma ProperBiographyArrives(a: Address, texts: seq<bytes>)
    requires ProperAddress(a) && |texts| == 8 && forall i | 0 <= i < 8 :: texts[i] != [] && Line(texts[i], 240)
    ensures var fields := BiographyHeadFields(a.request, a.bot, a.token) + BiographyTextFields(texts);
      var parsed := Parse(WriteObject(fields));
      parsed.Some? && ParseBiographyFields(parsed.value, a.token, a.request, a.bot) == Some(texts)
  {
    hide WriteObject, Parse, ParseBiographyFields, Utf8Valid;
    BiographyRoundTrip(a.request, a.bot, texts, a.token);
  }

  lemma {:induction false} ReadCapabilitiesAre(fields: map<bytes, Value>, n: nat)
    requires ReadCapabilities(fields, n).Some?
    ensures |ReadCapabilities(fields, n).value| == n
    ensures forall name | name in ReadCapabilities(fields, n).value :: name in CAPABILITIES
  {
    hide CapabilitySlot;
    if n > 0 { ReadCapabilitiesAre(fields, n - 1); }
  }

  predicate KnownCapability(name: bytes) {
    || name == "classic_content" || name == "outland" || name == "blood_elf" || name == "draenei"
    || name == "death_knight" || name == "burning_crusade_profession" || name == "wrath_profession"
    || name == "other_burning_crusade" || name == "other_wrath" || name == "unknown"
  }

  /** What each kind may name. */
  predicate ProperAssessment(kind: bytes, names: seq<bytes>) {
    if kind == "roleplay_invitation" || kind == "roleplay_continuation" then
      && names != [] && Unique(names) && |names| <= 10 && (forall i | 0 <= i < |names| :: KnownCapability(names[i]))
      && "unknown" !in names && (names == ["classic_content"] || "classic_content" !in names)
    else if kind == "uncertain" then names == ["unknown"]
    else names == [] && (kind == "ordinary" || kind == "practical" || kind == "opt_out")
  }

  lemma ShapeIsProper(kind: bytes, names: seq<bytes>)
    ensures ProperAssessment(kind, names) <==>
      && kind in ASSESSMENT_KINDS && |names| <= 10 && AssessmentShape(kind, names)
      && forall i | 0 <= i < |names| :: names[i] in CAPABILITIES
  {
    forall name: bytes ensures KnownCapability(name) <==> name in CAPABILITIES { }
    hide KnownCapability;
    if |names| == 1 { assert names == [names[0]]; }
  }

  /** Every proper assessment always arrives. */
  lemma ProperAssessmentArrives(a: Address, kind: bytes, names: seq<bytes>)
    requires ProperAddress(a) && ProperAssessment(kind, names)
    ensures var fields := AssessmentHeadFields(a.request, kind, |names|, a.token) + CapabilityFields(names);
      var parsed := Parse(WriteObject(fields));
      parsed.Some? && ParseAssessmentFields(parsed.value, a.token, a.request) == Some((kind, names))
  {
    ShapeIsProper(kind, names);
    hide ProperAssessment, AssessmentShape, WriteObject, Parse, ParseAssessmentFields;
    AssessmentRoundTrip(a.request, kind, names, a.token);
  }

  /**
   * An assessment: nothing to be capable of outside roleplay, only the unknown when uncertain, and for roleplay either
   * classic content alone or some distinct known capabilities.
   */
  lemma AcceptedAssessmentIsShaped(fields: map<bytes, Value>, token: bytes, request: nat)
    requires ParseAssessmentFields(fields, token, request).Some?
    ensures var (kind, names) := ParseAssessmentFields(fields, token, request).value; ProperAssessment(kind, names)
  {
    var (kind, names) := ParseAssessmentFields(fields, token, request).value;
    hide ReadCapabilities, AssessmentShape, ProperAssessment;
    ReadCapabilitiesAre(fields, NumberAt(fields, "capability_count").value);
    ShapeIsProper(kind, names);
  }

  // ---- What survives, in numbers ----

  /** Which spoken frames survive the wire, in the wire's own numbers. */
  lemma SurvivesIff(out: Outgoing)
    requires out.Speak?
    ensures var md := out.metadata;
      Survives(out) <==>
        && |out.proposal.evidence| + |out.proposal.memories| <= 23 && md.model != [] && Line(md.model, 64)
        && md.latency < 0x1_0000_0000_0000_0000 && md.input < 0x1_0000_0000_0000_0000
        && md.output < 0x1_0000_0000_0000_0000 && md.cacheCreation < 0x1_0000_0000_0000_0000
        && md.cacheRead < 0x1_0000_0000_0000_0000
  {
    hide Utf8Valid;
  }
}
