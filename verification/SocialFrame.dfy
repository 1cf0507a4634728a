/**
 * The social response frame: how the sidecar writes it and how the worldserver reads it. The reader
 * counts keys exactly, so what it accepts carries nothing it did not look at.
 */
module SocialFrame {
  import opened Bytes
  import opened Wrappers
  import opened FlatJson
  import opened FlatJsonParserClass
  import opened JsonWriter
  import opened Utf8Text
  import opened FixedUsd

  const SOCIAL_SCHEMA_VERSION: nat := 9
  const MIN_BRIDGE_TOKEN_BYTES: nat := 32
  const MAX_BRIDGE_TOKEN_BYTES: nat := 256
  const MAX_RESPONSE_MESSAGE_BYTES: nat := 240
  const MAX_MODEL_BYTES: nat := 64
  const MAX_EVIDENCE: nat := 24
  const MAX_MEMORIES: nat := 12
  const UINT32_MAX: nat := 0xFFFF_FFFF
  const UINT8_MAX: nat := 0xFF

  /** The gestures both sides know, by their game identifiers. */
  const SOCIAL_EMOTE_IDS: set<nat> := {5, 17, 21, 23, 48, 49, 60, 67, 78, 83, 85, 97, 101, 120, 163}

  datatype Contribution = Answer | SpecificReaction | FactFreeBanter | Gesture | NoContribution
  datatype ClaimSubject = CandidateBot | Participant | NoSubject

  function ContributionName(c: Contribution): bytes {
    match c
    case Answer => "answer"
    case SpecificReaction => "specific_reaction"
    case FactFreeBanter => "fact_free_banter"
    case Gesture => "gesture"
    case NoContribution => "none"
  }

  function ContributionFromName(name: bytes): Option<Contribution> {
    if name == "answer" then Some(Answer)
    else if name == "specific_reaction" then Some(SpecificReaction)
    else if name == "fact_free_banter" then Some(FactFreeBanter)
    else if name == "gesture" then Some(Gesture)
    else if name == "none" then Some(NoContribution)
    else None
  }

  function ClaimSubjectName(s: ClaimSubject): bytes {
    match s
    case CandidateBot => "candidate_bot"
    case Participant => "participant"
    case NoSubject => "none"
  }

  function ClaimSubjectFromName(name: bytes): Option<ClaimSubject> {
    if name == "candidate_bot" then Some(CandidateBot)
    else if name == "participant" then Some(Participant)
    else if name == "none" then Some(NoSubject)
    else None
  }

  lemma NamesRoundTrip(c: Contribution, s: ClaimSubject)
    ensures ContributionFromName(ContributionName(c)) == Some(c)
    ensures ClaimSubjectFromName(ClaimSubjectName(s)) == Some(s)
  {
  }

  datatype CallMetadata = CallMetadata(
    model: bytes, latency: nat, input: nat, output: nat, cacheCreation: nat, cacheRead: nat, cost: bytes)

  datatype Proposal = Proposal(
    contribution: Contribution, subject: ClaimSubject, evidence: seq<bytes>, memories: seq<bytes>)

  datatype SocialResponse =
    | Regeneration(requestToken: nat, bot: nat, channel: nat)
    | Deliverable(requestToken: nat, bot: nat, channel: nat, message: bytes, emote: nat,
                  metadata: CallMetadata, proposal: Proposal)

  predicate TokenUsable(token: bytes) { MIN_BRIDGE_TOKEN_BYTES <= |token| <= MAX_BRIDGE_TOKEN_BYTES }

  // ---- Slots ----

  datatype Citation = Evidence | Recollection

  function SlotPrefix(kind: Citation): bytes { if kind.Evidence? then "citation_" else "memory_citation_" }

  function Slot(kind: Citation, i: nat): bytes { SlotPrefix(kind) + Decimal(i) }

  /** An evidence id is g and digits; a memory id is m and digits that do not start with zero. */
  predicate CitationShape(kind: Citation, id: bytes) {
    && |id| >= 2
    && AllDigits(id[1..])
    && match kind
       case Evidence => id[0] == 'g'
       case Recollection => id[0] == 'm' && id[1] != '0'
  }

  // ---- Reading ----

  function TextAt(fields: map<bytes, Value>, key: bytes): Option<bytes> {
    if key in fields && fields[key].Text? then Some(fields[key].s) else None
  }

  function NumberAt(fields: map<bytes, Value>, key: bytes): Option<nat> {
    if key in fields && fields[key].Number? then Some(fields[key].n) else None
  }

  predicate NumberWithin(fields: map<bytes, Value>, key: bytes, bound: nat) {
    NumberAt(fields, key).Some? && NumberAt(fields, key).value <= bound
  }

  predicate ControlFieldsOk(fields: map<bytes, Value>, token: bytes, request: nat, bot: nat) {
    && NumberAt(fields, "schema_version") == Some(SOCIAL_SCHEMA_VERSION)
    && TokenUsable(token) && TextAt(fields, "token") == Some(token)
    && TextAt(fields, "kind") == Some("social")
    && NumberAt(fields, "social_request_token") == Some(request)
    && NumberAt(fields, "bot_guid") == Some(bot)
    && NumberWithin(fields, "speak_on_channel", UINT8_MAX)
    && NumberWithin(fields, "regenerate", 1)
    && NumberWithin(fields, "emote_id", UINT32_MAX)
    && TextAt(fields, "message").Some?
  }

  predicate ModelUsable(model: bytes) { model != [] && |model| <= MAX_MODEL_BYTES && IsSingleCleanLine(model) }

  predicate CallFieldsOk(fields: map<bytes, Value>) {
    && TextAt(fields, "model").Some? && ModelUsable(TextAt(fields, "model").value)
    && NumberAt(fields, "provider_latency_ms").Some?
    && NumberAt(fields, "input_tokens").Some?
    && NumberAt(fields, "output_tokens").Some?
    && NumberAt(fields, "cache_creation_input_tokens").Some?
    && NumberAt(fields, "cache_read_input_tokens").Some?
    && TextAt(fields, "cost_usd").Some? && Accepted(TextAt(fields, "cost_usd").value)
    && TextAt(fields, "contribution").Some? && ContributionFromName(TextAt(fields, "contribution").value).Some?
    && TextAt(fields, "claim_subject").Some? && ClaimSubjectFromName(TextAt(fields, "claim_subject").value).Some?
    && NumberWithin(fields, "citation_count", MAX_EVIDENCE)
    && NumberWithin(fields, "memory_citation_count", MAX_MEMORIES)
    && |fields| == 20 + NumberAt(fields, "citation_count").value + NumberAt(fields, "memory_citation_count").value
  }

  /** The first n slots of a kind, each well shaped and none repeated. */
  function ReadCitations(fields: map<bytes, Value>, kind: Citation, n: nat): Option<seq<bytes>> {
    if n == 0 then Some([])
    else
      var front := ReadCitations(fields, kind, n - 1);
      var id := TextAt(fields, Slot(kind, n - 1));
      if front.None? || id.None? || !CitationShape(kind, id.value) || id.value in front.value then None
      else Some(front.value + [id.value])
  }

  /** Exactly one answer: a gesture, a line, or deliberate silence, with the proposal each one allows. */
  predicate Coherent(message: bytes, emote: nat, p: Proposal) {
    var citesSomething := p.evidence != [] || p.memories != [];
    if emote != 0 then
      message == [] && emote in SOCIAL_EMOTE_IDS && p.contribution.Gesture? && p.subject.NoSubject? && !citesSomething
    else
      && |message| <= MAX_RESPONSE_MESSAGE_BYTES && IsSingleCleanLine(message)
      && if message == [] then p.contribution.NoContribution? && p.subject.NoSubject? && !citesSomething
         else !p.contribution.Gesture? && !p.contribution.NoContribution? && p.subject.NoSubject? != citesSomething
  }

  function MetadataIn(fields: map<bytes, Value>): CallMetadata
    requires CallFieldsOk(fields)
  {
    CallMetadata(TextAt(fields, "model").value, NumberAt(fields, "provider_latency_ms").value,
                 NumberAt(fields, "input_tokens").value, NumberAt(fields, "output_tokens").value,
                 NumberAt(fields, "cache_creation_input_tokens").value,
                 NumberAt(fields, "cache_read_input_tokens").value, TextAt(fields, "cost_usd").value)
  }

  function ParseDeliverable(fields: map<bytes, Value>, request: nat, bot: nat): Option<SocialResponse>
    requires NumberAt(fields, "speak_on_channel").Some? && NumberAt(fields, "emote_id").Some?
    requires TextAt(fields, "message").Some?
  {
    if !CallFieldsOk(fields) then None
    else
      var evidence := ReadCitations(fields, Evidence, NumberAt(fields, "citation_count").value);
      var memories := ReadCitations(fields, Recollection, NumberAt(fields, "memory_citation_count").value);
      if evidence.None? || memories.None? then None
      else
        var proposal := Proposal(ContributionFromName(TextAt(fields, "contribution").value).value,
                                 ClaimSubjectFromName(TextAt(fields, "claim_subject").value).value,
                                 evidence.value, memories.value);
        var message, emote := TextAt(fields, "message").value, NumberAt(fields, "emote_id").value;
        if !Coherent(message, emote, proposal) then None
        else Some(Deliverable(request, bot, NumberAt(fields, "speak_on_channel").value, message, emote,
                              MetadataIn(fields), proposal))
  }

  function ParseFields(fields: map<bytes, Value>, token: bytes, request: nat, bot: nat): Option<SocialResponse> {
    if |fields| != 9 && (|fields| < 19 || |fields| > 19 + MAX_EVIDENCE) then None
    else if !ControlFieldsOk(fields, token, request, bot) then None
    else if NumberAt(fields, "regenerate").value == 1 then
      if |fields| != 9 then None
      else Some(Regeneration(request, bot, NumberAt(fields, "speak_on_channel").value))
    else ParseDeliverable(fields, request, bot)
  }

  function ParseSocialResponse(payload: bytes, token: bytes, request: nat, bot: nat): Option<SocialResponse> {
    var fields := Parse(payload);
    if fields.None? then None else ParseFields(fields.value, token, request, bot)
  }

  /** The reader as it runs, with its citation loops. */
  method ParseSocialResponsePayload(payload: bytes, token: bytes, request: nat, bot: nat)
    returns (response: Option<SocialResponse>)
    ensures response == ParseSocialResponse(payload, token, request, bot)
  {
    var parser := new FlatJsonParser(payload);
    var parsed := parser.Parse();
    if parsed.None? { return None; }
    var fields := parsed.value;
    if |fields| != 9 && (|fields| < 19 || |fields| > 19 + MAX_EVIDENCE) { return None; }
    if !ControlFieldsOk(fields, token, request, bot) { return None; }
    var channel := fields["speak_on_channel"].n;
    if fields["regenerate"].n == 1 {
      if |fields| != 9 { return None; }
      return Some(Regeneration(request, bot, channel));
    }
    if !CallFieldsOk(fields) { return None; }
    var evidence := CollectCitations(fields, Evidence, fields["citation_count"].n);
    if evidence.None? { return None; }
    var memories := CollectCitations(fields, Recollection, fields["memory_citation_count"].n);
    if memories.None? { return None; }
    var proposal := Proposal(ContributionFromName(fields["contribution"].s).value,
                             ClaimSubjectFromName(fields["claim_subject"].s).value, evidence.value, memories.value);
    if !Coherent(fields["message"].s, fields["emote_id"].n, proposal) { return None; }
    return Some(Deliverable(request, bot, channel, fields["message"].s, fields["emote_id"].n,
                            MetadataIn(fields), proposal));
  }

  method CollectCitations(fields: map<bytes, Value>, kind: Citation, count: nat) returns (ids: Option<seq<bytes>>)
    ensures ids == ReadCitations(fields, kind, count)
  {
    var collected: seq<bytes> := [];
    for index := 0 to count
      invariant ReadCitations(fields, kind, index) == Some(collected)
    {
      var id := TextAt(fields, Slot(kind, index));
      if id.None? || !CitationShape(kind, id.value) || id.value in collected {
        RefusedStaysRefused(fields, kind, index + 1, count);
        return None;
      }
      collected := collected + [id.value];
    }
    return Some(collected);
  }

  lemma {:induction false} RefusedStaysRefused(fields: map<bytes, Value>, kind: Citation, n: nat, count: nat)
    requires n <= count && ReadCitations(fields, kind, n).None?
    ensures ReadCitations(fields, kind, count).None?
  {
    if n < count { RefusedStaysRefused(fields, kind, n, count - 1); }
  }

  // ---- What the exact count refuses ----

  predicate Distinct(names: seq<bytes>) { forall i, j | 0 <= i < j < |names| :: names[i] != names[j] }

  lemma {:induction false} DistinctCount(names: seq<bytes>)
    requires Distinct(names)
    ensures |(set n | n in names)| == |names|
  {
    if names != [] {
      var front, last := names[..|names| - 1], names[|names| - 1];
      DistinctCount(front);
      assert (set n | n in names) == (set n | n in front) + {last};
    }
  }

  /** A frame that has every expected name and no more keys than names has exactly those keys. */
  lemma ExactKeys(fields: map<bytes, Value>, names: seq<bytes>)
    requires Distinct(names) && (forall i | 0 <= i < |names| :: names[i] in fields) && |fields| == |names|
    ensures fields.Keys == set n | n in names
  {
    var expected := set n | n in names;
    DistinctCount(names);
    assert expected <= fields.Keys;
    SubsetOfSameSize(expected, fields.Keys);
  }

  lemma SubsetOfSameSize(a: set<bytes>, b: set<bytes>)
    requires a <= b && |a| == |b|
    ensures a == b
  {
    assert |b - a| == |b| - |a|;
  }

  const CONTROL_KEYS: seq<bytes> := ["schema_version", "token", "kind", "social_request_token", "bot_guid",
    "speak_on_channel", "message", "emote_id", "regenerate"]

  const CALL_KEYS: seq<bytes> := ["model", "provider_latency_ms", "input_tokens", "output_tokens",
    "cache_creation_input_tokens", "cache_read_input_tokens", "cost_usd", "contribution", "claim_subject",
    "citation_count"]

  function Slots(kind: Citation, n: nat): (names: seq<bytes>)
    ensures |names| == n && forall i | 0 <= i < n :: names[i] == Slot(kind, i)
  {
    seq(n, i requires 0 <= i < n => Slot(kind, i))
  }

  /** Every key of a deliverable frame, in the order the sidecar writes them. */
  function DeliverableKeys(c: nat, m: nat): seq<bytes> {
    CONTROL_KEYS + CALL_KEYS + Slots(Evidence, c) + ["memory_citation_count"] + Slots(Recollection, m)
  }

  /** Length and first letter tell the fixed names apart, and tell them from every slot in use. */
  function Mark(name: bytes): int { if name == [] then 0 else |name| * 1000 + name[0] as int }

  predicate SlotMark(kind: Citation, mark: int) {
    match kind
    case Evidence => mark == 10 * 1000 + 'c' as int || mark == 11 * 1000 + 'c' as int
    case Recollection => mark == 17 * 1000 + 'm' as int || mark == 18 * 1000 + 'm' as int
  }

  const FIXED_KEYS: seq<bytes> := CONTROL_KEYS + CALL_KEYS + ["memory_citation_count"]

  lemma FixedMarks()
    ensures |FIXED_KEYS| == 20
    ensures forall i, j | 0 <= i < j < 20 :: Mark(FIXED_KEYS[i]) != Mark(FIXED_KEYS[j])
    ensures forall i | 0 <= i < 20 ::
      !SlotMark(Evidence, Mark(FIXED_KEYS[i])) && !SlotMark(Recollection, Mark(FIXED_KEYS[i]))
  {
    FixedNamesAreNoSlots();
    LaterMarks();
    EarlierMarks();
  }

  lemma EarlierMarks()
    ensures forall i, j | 0 <= i < 9 && i < j < 20 :: Mark(FIXED_KEYS[i]) != Mark(FIXED_KEYS[j])
  {
  }

  lemma LaterMarks()
    ensures forall i, j | 9 <= i < j < 20 :: Mark(FIXED_KEYS[i]) != Mark(FIXED_KEYS[j])
  {
  }

  lemma FixedNamesAreNoSlots()
    ensures forall i | 0 <= i < 20 ::
      !SlotMark(Evidence, Mark(FIXED_KEYS[i])) && !SlotMark(Recollection, Mark(FIXED_KEYS[i]))
  {
  }

  lemma SlotMarks(kind: Citation, i: nat)
    requires i < 100
    ensures SlotMark(kind, Mark(Slot(kind, i)))
  {
    assert Pow10(2) == 100 by { assert Pow10(1) == 10 * Pow10(0); }
    DecimalLength(i, 2);
  }

  lemma SlotsInjective(kind: Citation, i: nat, j: nat)
    requires Slot(kind, i) == Slot(kind, j)
    ensures i == j
  {
    var n := |SlotPrefix(kind)|;
    assert Slot(kind, i)[n..] == Decimal(i) && Slot(kind, j)[n..] == Decimal(j);
    DecimalInjective(i, j);
  }

  lemma DistinctConcat(a: seq<bytes>, b: seq<bytes>)
    requires Distinct(a) && Distinct(b) && forall i, j | 0 <= i < |a| && 0 <= j < |b| :: a[i] != b[j]
    ensures Distinct(a + b)
  {
  }

  lemma SlotsDistinct(kind: Citation, n: nat)
    ensures Distinct(Slots(kind, n))
  {
    forall i, j | 0 <= i < j < n ensures Slots(kind, n)[i] != Slots(kind, n)[j] {
      if Slot(kind, i) == Slot(kind, j) { SlotsInjective(kind, i, j); }
    }
  }

  lemma DeliverableKeysDistinct(c: nat, m: nat)
    requires c <= 100 && m <= 100
    ensures Distinct(DeliverableKeys(c, m)) && |DeliverableKeys(c, m)| == 20 + c + m
  {
    FixedMarks();
    var fixed, evidence, memories := CONTROL_KEYS + CALL_KEYS, Slots(Evidence, c), Slots(Recollection, m);
    SlotsDistinct(Evidence, c);
    SlotsDistinct(Recollection, m);
    forall i | 0 <= i < c ensures SlotMark(Evidence, Mark(evidence[i])) { SlotMarks(Evidence, i); }
    forall i | 0 <= i < m ensures SlotMark(Recollection, Mark(memories[i])) { SlotMarks(Recollection, i); }
    forall i, j | 0 <= i < |fixed| && 0 <= j < c ensures fixed[i] != evidence[j] { assert fixed[i] == FIXED_KEYS[i]; }
    forall i, j | 0 <= i < j < |fixed| ensures fixed[i] != fixed[j] {
      assert fixed[i] == FIXED_KEYS[i] && fixed[j] == FIXED_KEYS[j];
    }
    DistinctConcat(fixed, evidence);
    var head, count := fixed + evidence, ["memory_citation_count"];
    assert FIXED_KEYS[19] == count[0];
    forall i | 0 <= i < |head| ensures head[i] != count[0] && forall j | 0 <= j < m :: head[i] != memories[j] {
      if i < |fixed| { assert head[i] == FIXED_KEYS[i]; }
    }
    DistinctConcat(head, count);
    DistinctConcat(head + count, memories);
  }

  lemma {:induction false} ReadSlotsPresent(fields: map<bytes, Value>, kind: Citation, n: nat, i: nat)
    requires ReadCitations(fields, kind, n).Some? && i < n
    ensures Slot(kind, i) in fields
  {
    if i < n - 1 { ReadSlotsPresent(fields, kind, n - 1, i); }
  }

  lemma ControlKeysPresent(fields: map<bytes, Value>, token: bytes, request: nat, bot: nat)
    requires ControlFieldsOk(fields, token, request, bot)
    ensures forall i | 0 <= i < |CONTROL_KEYS| :: CONTROL_KEYS[i] in fields
  {
  }

  lemma CallKeysPresent(fields: map<bytes, Value>)
    requires CallFieldsOk(fields)
    ensures forall i | 0 <= i < |CALL_KEYS| :: CALL_KEYS[i] in fields
    ensures "memory_citation_count" in fields
  {
  }

  lemma AllKeysPresent(fields: map<bytes, Value>, c: nat, m: nat)
    requires forall i | 0 <= i < |CONTROL_KEYS| :: CONTROL_KEYS[i] in fields
    requires forall i | 0 <= i < |CALL_KEYS| :: CALL_KEYS[i] in fields
    requires "memory_citation_count" in fields
    requires ReadCitations(fields, Evidence, c).Some? && ReadCitations(fields, Recollection, m).Some?
    ensures forall i | 0 <= i < |DeliverableKeys(c, m)| :: DeliverableKeys(c, m)[i] in fields
  {
    var evidence, memories := Slots(Evidence, c), Slots(Recollection, m);
    forall i | 0 <= i < c ensures evidence[i] in fields { ReadSlotsPresent(fields, Evidence, c, i); }
    forall i | 0 <= i < m ensures memories[i] in fields { ReadSlotsPresent(fields, Recollection, m, i); }
  }

  /** An accepted deliverable frame carries exactly the protocol's keys and the slots its counts declare. */
  lemma AcceptedFrameHasExactlyItsKeys(fields: map<bytes, Value>, token: bytes, request: nat, bot: nat)
    requires ParseFields(fields, token, request, bot).Some?
    requires ParseFields(fields, token, request, bot).value.Deliverable?
    ensures var p := ParseFields(fields, token, request, bot).value.proposal;
      fields.Keys == set n | n in DeliverableKeys(|p.evidence|, |p.memories|)
  {
    var c := NumberAt(fields, "citation_count").value;
    var m := NumberAt(fields, "memory_citation_count").value;
    CitationCounts(fields, Evidence, c);
    CitationCounts(fields, Recollection, m);
    ControlKeysPresent(fields, token, request, bot);
    CallKeysPresent(fields);
    AllKeysPresent(fields, c, m);
    DeliverableKeysDistinct(c, m);
    ExactKeys(fields, DeliverableKeys(c, m));
  }

  lemma {:induction false} CitationCounts(fields: map<bytes, Value>, kind: Citation, n: nat)
    requires ReadCitations(fields, kind, n).Some?
    ensures |ReadCitations(fields, kind, n).value| == n
  {
    if n > 0 { CitationCounts(fields, kind, n - 1); }
  }

  /** And an accepted regeneration carries the nine control keys, nothing else. */
  lemma AcceptedRegenerationHasExactlyItsKeys(fields: map<bytes, Value>, token: bytes, request: nat, bot: nat)
    requires ParseFields(fields, token, request, bot).Some?
    requires ParseFields(fields, token, request, bot).value.Regeneration?
    ensures fields.Keys == set n | n in CONTROL_KEYS
  {
    FixedMarks();
    forall i, j | 0 <= i < j < 9 ensures CONTROL_KEYS[i] != CONTROL_KEYS[j] {
      assert CONTROL_KEYS[i] == FIXED_KEYS[i] && CONTROL_KEYS[j] == FIXED_KEYS[j];
    }
    ExactKeys(fields, CONTROL_KEYS);
  }
}
