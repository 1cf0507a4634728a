/**
 * From a model's proposal to the worldserver's reading of it: the sidecar's coherence and citation
 * rules, the encoder, and the reader, end to end. Content filters are opaque verdicts.
 */
module SocialReplyRules {
  import opened Bytes
  import opened Wrappers
  import opened Budget
  import opened JsonWriter
  import opened Utf8Text
  import opened FixedUsd
  import opened SocialFrame
  import opened SocialEncoder

  datatype ReplyKind = Line | GestureReply | Silence

  datatype SocialReply = SocialReply(
    kind: ReplyKind, message: bytes, emote: bytes, contribution: Contribution, subject: ClaimSubject,
    evidence: seq<bytes>, memories: seq<bytes>)

  /** The closed vocabulary of gestures, by the name the model picks. */
  const SOCIAL_EMOTES: map<bytes, nat> := map[
    "applaud" := 5, "bow" := 17, "cheer" := 21, "chuckle" := 23, "greet" := 48, "grin" := 49, "laugh" := 60,
    "nod" := 67, "salute" := 78, "shrug" := 83, "sigh" := 85, "smile" := 163, "thank" := 97, "wave" := 101,
    "ponder" := 120]

  datatype EvidenceSubject = BotEvidence | ParticipantEvidence | SourceEvidence
  datatype EvidenceEntry = EvidenceEntry(id: bytes, subject: EvidenceSubject)

  /** Scope is the index into public, party, whisper. */
  datatype SocialMemory = SocialMemory(id: bytes, scope: nat)

  datatype SocialRequest = SocialRequest(
    token: nat, bot: nat, channel: nat, evidence: seq<EvidenceEntry>, memories: seq<SocialMemory>, expectsAnswer: bool)

  const SOCIAL_CHANNEL_COUNT: nat := 4
  const CHANNEL_MEMORY_SCOPE: seq<nat> := [0, 0, 1, 2]

  predicate NumberedId(letter: char, id: bytes) {
    |id| >= 2 && id[0] == letter && id[1] != '0' && AllDigits(id[1..])
  }

  /** What the request parser has established before any of this runs. */
  predicate RequestOk(request: SocialRequest) {
    && 1 <= request.token <= UINT64_MAX && 1 <= request.bot <= UINT64_MAX && request.channel < SOCIAL_CHANNEL_COUNT
    && (forall i | 0 <= i < |request.evidence| :: NumberedId('g', request.evidence[i].id))
    && (forall i | 0 <= i < |request.memories| :: NumberedId('m', request.memories[i].id))
  }

  /** The verdicts that depend on the text itself: trimming, and the two layers of content filters. */
  datatype Filters = Filters(strip: bytes -> bytes, lineAllowed: bytes -> bool,
                             claimAllowed: (bytes, SocialReply) -> bool)

  ghost predicate StripKeepsText(f: Filters) { forall t :: Utf8Valid(t) ==> Utf8Valid(f.strip(t)) }

  /** The reply model's own validator. */
  predicate OneCoherentAnswer(r: SocialReply, f: Filters) {
    && |r.evidence| <= MAX_EVIDENCE && Unique(r.evidence)
    && |r.memories| <= MAX_MEMORIES && Unique(r.memories)
    && (r.emote == [] || r.emote in SOCIAL_EMOTES)
    && match r.kind
       case Line =>
         f.strip(r.message) != [] && r.emote == [] && !r.contribution.Gesture? && !r.contribution.NoContribution?
       case GestureReply =>
         && f.strip(r.message) == [] && r.emote != [] && r.contribution.Gesture?
         && r.subject.NoSubject? && r.evidence == [] && r.memories == []
       case Silence =>
         && f.strip(r.message) == [] && r.emote == [] && r.contribution.NoContribution?
         && r.subject.NoSubject? && r.evidence == [] && r.memories == []
  }

  /** The memories a channel may draw on: none more private than the channel itself. */
  function MemoriesWithin(memories: seq<SocialMemory>, channel: nat): seq<SocialMemory> {
    if channel >= |CHANNEL_MEMORY_SCOPE| || memories == [] then []
    else if memories[0].scope <= CHANNEL_MEMORY_SCOPE[channel] then
      [memories[0]] + MemoriesWithin(memories[1..], channel)
    else MemoriesWithin(memories[1..], channel)
  }

  predicate Offers(memories: seq<SocialMemory>, id: bytes) { exists m | m in memories :: m.id == id }

  predicate HasEvidence(evidence: seq<EvidenceEntry>, id: bytes) { exists e | e in evidence :: e.id == id }

  predicate Compatible(subject: ClaimSubject, owner: EvidenceSubject) {
    match subject
    case CandidateBot => owner.BotEvidence? || owner.SourceEvidence?
    case Participant => owner.ParticipantEvidence?
    case NoSubject => false
  }

  /** Citations name things this request offered on this channel, owned by the subject of the claim. */
  predicate CitationsHold(r: SocialReply, request: SocialRequest) {
    var cites := r.evidence != [] || r.memories != [];
    && (forall i | 0 <= i < |r.memories| :: Offers(MemoriesWithin(request.memories, request.channel), r.memories[i]))
    && (forall i | 0 <= i < |r.evidence| :: HasEvidence(request.evidence, r.evidence[i]))
    && (r.contribution.Answer? ==> request.expectsAnswer && cites)
    && (r.contribution.FactFreeBanter? ==> r.subject.NoSubject? && !cites)
    && (forall e | e in request.evidence && e.id in r.evidence :: Compatible(r.subject, e.subject))
    && (r.memories != [] ==> r.subject.Participant?)
    && (r.subject.NoSubject? ==> !cites)
  }

  /** The line as it would be spoken, when it is one bounded line the filters allow. */
  function ValidateMessage(message: bytes, f: Filters): Option<bytes> {
    var line := f.strip(message);
    if line == [] || (exists i | 0 <= i < |line| :: line[i] as int < 0x20) || |line| > MAX_RESPONSE_MESSAGE_BYTES
       || !f.lineAllowed(line) then None
    else Some(line)
  }

  /** None is the typed refusal; otherwise the message and the gesture to send. */
  function ValidateSocialReply(r: SocialReply, request: SocialRequest, f: Filters): Option<(bytes, nat)> {
    if r.kind.Silence? then Some(([], 0))
    else if !CitationsHold(r, request) then None
    else if r.kind.GestureReply? then
      if r.emote in SOCIAL_EMOTES && request.channel in SOCIAL_EMOTE_CHANNELS then
        Some(([], SOCIAL_EMOTES[r.emote]))
      else None
    else
      var line := ValidateMessage(r.message, f);
      if line.None? || !f.claimAllowed(line.value, r) then None
      else if !r.subject.NoSubject? && r.evidence == [] && r.memories == [] then None
      else Some((line.value, 0))
  }

  /** The frame content for a validated reply settled at a stored cost. */
  function SpokenFrame(r: SocialReply, spoken: (bytes, nat), md: CallMetadata): Outgoing {
    Speak(spoken.0, spoken.1, md, Proposal(r.contribution, r.subject, r.evidence, r.memories))
  }

  // ---- What the rules guarantee ----

  lemma EmotesAgree(name: bytes)
    requires name in SOCIAL_EMOTES
    ensures SOCIAL_EMOTES[name] in SOCIAL_EMOTE_IDS && SOCIAL_EMOTES[name] != 0
  {
  }

  /** Only a memory the channel is private enough for can be cited. */
  lemma {:induction false} OfferedWithinScope(memories: seq<SocialMemory>, channel: nat, m: SocialMemory)
    ensures m in MemoriesWithin(memories, channel) <==>
      m in memories && channel < |CHANNEL_MEMORY_SCOPE| && m.scope <= CHANNEL_MEMORY_SCOPE[channel]
  {
    if channel < |CHANNEL_MEMORY_SCOPE| && memories != [] {
      OfferedWithinScope(memories[1..], channel, m);
    }
  }

  /** A spoken reply never cites a memory more private than the channel it is spoken on. */
  lemma CitedMemoryIsWithinChannel(r: SocialReply, request: SocialRequest, f: Filters, i: nat)
    requires OneCoherentAnswer(r, f) && ValidateSocialReply(r, request, f).Some? && i < |r.memories|
    ensures request.channel < SOCIAL_CHANNEL_COUNT
    ensures exists m | m in request.memories ::
      m.id == r.memories[i] && m.scope <= CHANNEL_MEMORY_SCOPE[request.channel]
  {
    var within := MemoriesWithin(request.memories, request.channel);
    assert Offers(within, r.memories[i]);
    var m :| m in within && m.id == r.memories[i];
    OfferedWithinScope(request.memories, request.channel, m);
  }

  lemma CitedIdsAreShaped(r: SocialReply, request: SocialRequest)
    requires RequestOk(request) && CitationsHold(r, request)
    ensures forall i | 0 <= i < |r.evidence| :: CitationShape(Evidence, r.evidence[i])
    ensures forall i | 0 <= i < |r.memories| :: CitationShape(Recollection, r.memories[i])
  {
    forall i | 0 <= i < |r.evidence| ensures CitationShape(Evidence, r.evidence[i]) {
      assert HasEvidence(request.evidence, r.evidence[i]);
      var e :| e in request.evidence && e.id == r.evidence[i];
    }
    forall i | 0 <= i < |r.memories| ensures CitationShape(Recollection, r.memories[i]) {
      assert Offers(MemoriesWithin(request.memories, request.channel), r.memories[i]);
      var m :| m in MemoriesWithin(request.memories, request.channel) && m.id == r.memories[i];
      OfferedWithinScope(request.memories, request.channel, m);
    }
  }

  /** What a validated reply turns into meets both the encoder's demands and the reader's. */
  lemma ValidatedIsCoherent(r: SocialReply, request: SocialRequest, f: Filters, token: bytes, md: CallMetadata)
    requires RequestOk(request) && TokenUsable(token) && StripKeepsText(f) && Utf8Valid(r.message)
    requires OneCoherentAnswer(r, f) && ValidateSocialReply(r, request, f).Some?
    ensures var spoken := ValidateSocialReply(r, request, f).value; var out := SpokenFrame(r, spoken, md);
      Encodable(request.token, request.bot, request.channel, token, out)
        && Coherent(out.message, out.emote, out.proposal)
  {
    match r.kind
    case Silence =>
    case GestureReply =>
      EmotesAgree(r.emote);
    case Line =>
      CitedIdsAreShaped(r, request);
      assert Utf8Valid(f.strip(r.message));
  }

  /**
   * A reply that passes the sidecar's rules is encoded, and the worldserver reads back the same
   * message, gesture, contribution, subject, and both citation lists exactly when `Survives` holds;
   * when it does not, the paid-for reply is refused as a whole.
   */
  lemma ValidatedReplyCrossesTheWireIff(r: SocialReply, request: SocialRequest, f: Filters, token: bytes,
                                        md: CallMetadata, stored: int)
    requires RequestOk(request) && TokenUsable(token) && StripKeepsText(f) && Utf8Valid(r.message)
    requires OneCoherentAnswer(r, f) && ValidateSocialReply(r, request, f).Some?
    requires Storable(stored) && md.cost == NanoToFixedUsd(stored).value
    ensures var spoken := ValidateSocialReply(r, request, f).value;
      var out := SpokenFrame(r, spoken, md);
      var frame := EncodeSocialResponse(request.token, request.bot, request.channel, token, out);
      && frame.Some?
      && ParseSocialResponse(frame.value, token, request.token, request.bot)
           == if Survives(out)
              then Some(Deliverable(request.token, request.bot, request.channel, spoken.0, spoken.1, md,
                                    Proposal(r.contribution, r.subject, r.evidence, r.memories)))
              else None
  {
    ValidatedIsCoherent(r, request, f, token, md);
    RenderedIsAccepted(stored);
    var out := SpokenFrame(r, ValidateSocialReply(r, request, f).value, md);
    EncodedFrameIsAcceptedIff(request.token, request.bot, request.channel, token, out);
  }

  // ---- The frames that do not survive ----

  function GId(i: nat): bytes { "g" + Decimal(i + 1) }

  lemma GIdsDiffer(i: nat, j: nat)
    requires i != j
    ensures GId(i) != GId(j)
  {
    if GId(i) == GId(j) {
      assert GId(i)[1..] == Decimal(i + 1) && GId(j)[1..] == Decimal(j + 1);
      DecimalInjective(i + 1, j + 1);
    }
  }

  lemma GIdIsNumbered(i: nat)
    ensures NumberedId('g', GId(i))
  {
    assert GId(i)[1..] == Decimal(i + 1);
    NumeralOfDecimal(i + 1);
  }

  /** A legal reply citing all of a request's twenty-four evidence entries is encoded and then refused. */
  lemma TwentyFourCitationsAreLost()
    returns (r: SocialReply, request: SocialRequest, f: Filters, md: CallMetadata, token: bytes)
    ensures RequestOk(request) && |request.evidence| == MAX_EVIDENCE && TokenUsable(token)
    ensures OneCoherentAnswer(r, f) && ValidateSocialReply(r, request, f) == Some(("ok", 0))
    ensures CountsFit(md) && ModelUsable(md.model)
    ensures var frame := EncodeSocialResponse(request.token, request.bot, request.channel, token,
                                              SpokenFrame(r, ("ok", 0), md));
      frame.Some? && ParseSocialResponse(frame.value, token, request.token, request.bot).None?
  {
    var ids := seq(24, i requires 0 <= i < 24 => GId(i));
    var entries := seq(24, i requires 0 <= i < 24 => EvidenceEntry(GId(i), ParticipantEvidence));
    forall i | 0 <= i < 24 ensures NumberedId('g', entries[i].id) && HasEvidence(entries, ids[i]) {
      GIdIsNumbered(i);
      assert entries[i] in entries;
    }
    forall i, j | 0 <= i < j < 24 ensures ids[i] != ids[j] { GIdsDiffer(i, j); }
    r := SocialReply(Line, "ok", [], SpecificReaction, Participant, ids, []);
    request := SocialRequest(1, 1, 0, entries, [], true);
    f := Filters((t: bytes) => t, (t: bytes) => true, (t: bytes, p: SocialReply) => true);
    token := seq(32, _ => 'k');
    md := CallMetadata("m", 0, 0, 0, 0, 0, NanoToFixedUsd(0).value);
    assert ValidateMessage("ok", f) == Some("ok");
    ShortAsciiIsValid();
    assert CitationsHold(r, request);
    ValidatedReplyCrossesTheWireIff(r, request, f, token, md, 0);
  }

  lemma ShortAsciiIsValid()
    ensures Utf8Valid("ok") && Utf8Valid("m")
  {
    assert "ok"[1..] == "k" && "k"[1..] == "" && "m"[1..] == "";
    assert Utf8Valid("k");
  }
}
