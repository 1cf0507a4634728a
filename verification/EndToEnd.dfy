/** A reply from the sidecar's validator to the coordinator: encoder, wire, reader, and transport together. */
module EndToEnd {
  import opened Bytes
  import opened Wrappers
  import opened Utf8Text
  import opened FixedUsd
  import opened SocialFrame
  import opened SocialEncoder
  import opened SocialReplyRules
  import Wire = SocialTransport
  import T = SocialTransportTheorems
  import D = SocialDrain

  /** What the coordinator should receive for a validated reply. */
  function Intended(r: SocialReply, request: SocialRequest, spoken: (bytes, nat),
                    md: CallMetadata): Wire.ProviderResult {
    Wire.ProviderResult(
      request.token,
      if spoken.1 != 0 then Wire.Emote else if spoken.0 != [] then Wire.Message else Wire.Silence,
      spoken.1, spoken.0, request.channel, md, Proposal(r.contribution, r.subject, r.evidence, r.memories))
  }

  lemma GesturesAreWordless(r: SocialReply, request: SocialRequest, f: Filters)
    requires ValidateSocialReply(r, request, f).Some? && ValidateSocialReply(r, request, f).value.1 != 0
    ensures ValidateSocialReply(r, request, f).value.0 == []
  {
  }

  /**
   * In any state the transport can reach, the frame for a validated reply that arrives by the deadline in
   * force, as the first answer to its token, is delivered exactly as intended, however late it is drained,
   * if and only if it survives the wire.
   */
  lemma ValidatedReplyIsDeliveredIff(cfg: Wire.Settings, st: Wire.State, r: SocialReply, request: SocialRequest,
                                     f: Filters, md: CallMetadata, stored: int, responses: seq<Wire.RawResponse>,
                                     takes: nat -> bool, now: int, i: nat)
    requires T.Reachable(cfg, st) && TokenUsable(cfg.bridgeToken)
    requires request.token in st.exchanges && st.exchanges[request.token].request.bot == request.bot
    requires RequestOk(request) && StripKeepsText(f) && Utf8Valid(r.message)
    requires OneCoherentAnswer(r, f) && ValidateSocialReply(r, request, f).Some?
    requires Storable(stored) && md.cost == NanoToFixedUsd(stored).value
    requires i < |responses| && responses[i].token == request.token
    requires responses[i].receivedAt <= st.exchanges[request.token].expires
    requires forall j | 0 <= j < i :: responses[j].token != request.token
    requires var out := SpokenFrame(r, ValidateSocialReply(r, request, f).value, md);
      EncodeSocialResponse(request.token, request.bot, request.channel, cfg.bridgeToken, out)
        == Some(responses[i].payload)
    ensures var spoken := ValidateSocialReply(r, request, f).value;
      var delivered := Wire.Event(request.token, Wire.Delivered(responses[i], Intended(r, request, spoken, md)));
      var after := Wire.Resolved(cfg, st, responses, takes, now);
      && (delivered in after.log <==> Survives(SpokenFrame(r, spoken, md)))
      && (Wire.Event(request.token, Wire.Abandoned) in after.log <==> !Survives(SpokenFrame(r, spoken, md)))
  {
    hide ParseSocialResponse, EncodeSocialResponse, ValidateSocialReply, OneCoherentAnswer, Survives, Wire.Ascending,
      Wire.EventsFor;
    ExchangeMatches(cfg, st, request);
    ValidatedReplyCrossesTheWireIff(r, request, f, cfg.bridgeToken, md, stored);
    var spoken := ValidateSocialReply(r, request, f).value;
    NotBoth(cfg, st, responses, takes, now, request.token,
            Wire.Delivered(responses[i], Intended(r, request, spoken, md)));
    if Survives(SpokenFrame(r, spoken, md)) {
      T.InTimeAnswerIsDelivered(cfg, st, responses, takes, now, i);
      if ValidateSocialReply(r, request, f).value.1 != 0 { GesturesAreWordless(r, request, f); }
    } else {
      T.UnreadableAnswerIsAbandoned(cfg, st, responses, takes, now, i);
    }
  }

  /**
   * In any state the transport can reach, the sidecar's request to try again, arriving in time, sends the same request
   * once more if and only if it was handed over only once before and the bridge takes it.
   */
  lemma AskedAgainIsRetriedIff(cfg: Wire.Settings, st: Wire.State, request: SocialRequest,
                               responses: seq<Wire.RawResponse>, takes: nat -> bool, now: int, i: nat)
    requires T.Reachable(cfg, st) && TokenUsable(cfg.bridgeToken) && cfg.configuredDeadlineMs > 0
    requires RequestOk(request) && request.token in st.exchanges
    requires st.exchanges[request.token].request.bot == request.bot
    requires D.OnlyAnswer(responses, i) && responses[i].token == request.token
    requires responses[i].receivedAt <= st.exchanges[request.token].expires
    requires Some(responses[i].payload)
          == EncodeSocialResponse(request.token, request.bot, request.channel, cfg.bridgeToken, AskAgain)
    ensures var after := Wire.Resolved(cfg, st, responses, takes, now);
      && (request.token in after.exchanges <==> |T.Story(st.log, request.token)| == 1 && takes(i))
      && (request.token in after.exchanges ==>
            after.exchanges[request.token].request == st.exchanges[request.token].request)
      && (request.token !in after.exchanges ==>
            D.DrainTells(cfg, st, responses, takes, now, request.token, [Wire.Abandoned]))
  {
    hide ParseSocialResponse, T.Reachable, Wire.Resolved, D.DrainTells;
    ExchangeMatches(cfg, st, request);
    T.TokenLife(cfg, st, request.token);
    RegenerationIsAccepted(request.token, request.bot, request.channel, cfg.bridgeToken);
    D.RegenerationIsCarriedOutIff(cfg, st, responses, takes, now, i);
  }

  lemma NotBoth(cfg: Wire.Settings, st: Wire.State, responses: seq<Wire.RawResponse>, takes: nat -> bool, now: int,
                token: nat, delivered: Wire.Mark)
    requires T.Reachable(cfg, st) && delivered.Delivered?
    ensures var log := Wire.Resolved(cfg, st, responses, takes, now).log;
      !(Wire.Event(token, delivered) in log && Wire.Event(token, Wire.Abandoned) in log)
  {
    var step := T.Resolve(responses, takes, now);
    var after := T.Next(cfg, st, step);
    T.StepIsReachable(cfg, st, step);
    hide T.Reachable, Wire.Resolved;
    if Wire.Event(token, delivered) in after.log && Wire.Event(token, Wire.Abandoned) in after.log {
      T.OneEnding(cfg, after, token, delivered, Wire.Abandoned);
    }
  }

  lemma ExchangeMatches(cfg: Wire.Settings, st: Wire.State, request: SocialRequest)
    requires T.Reachable(cfg, st)
    requires request.token in st.exchanges && st.exchanges[request.token].request.bot == request.bot
    ensures st.exchanges[request.token].exchange.token == request.token
    ensures st.exchanges[request.token].exchange.bot == request.bot
  {
    T.TokenLife(cfg, st, request.token);
  }

  lemma OrdinaryReply() returns (r: SocialReply, request: SocialRequest, f: Filters, md: CallMetadata)
    ensures RequestOk(request) && request.token == 1 && request.bot == 1 && |request.evidence| == 1
      && StripKeepsText(f) && Utf8Valid(r.message)
    ensures OneCoherentAnswer(r, f) && ValidateSocialReply(r, request, f) == Some(("ok", 0))
    ensures md.cost == NanoToFixedUsd(0).value && Survives(SpokenFrame(r, ("ok", 0), md))
  {
    r := SocialReply(Line, "ok", [], FactFreeBanter, NoSubject, [], []);
    request := SocialRequest(1, 1, 0, [EvidenceEntry("g1", SourceEvidence)], [], false);
    f := Filters((t: bytes) => t, (t: bytes) => true, (t: bytes, p: SocialReply) => true);
    md := CallMetadata("m", 0, 0, 0, 0, 0, NanoToFixedUsd(0).value);
    assert "g1"[1..] == "1";
    assert ValidateMessage("ok", f) == Some("ok");
    ShortAsciiIsValid();
  }

  lemma FirstSubmissionIsReachable(cfg: Wire.Settings, request: Wire.Request) returns (st: Wire.State)
    ensures T.Reachable(cfg, st) && request.token in st.exchanges
    ensures st.exchanges[request.token].request == request && st.exchanges[request.token].expires == cfg.DeadlineMs()
  {
    var step := T.Submit(request, 0, true, true);
    st := T.Next(cfg, T.INITIAL, step);
    assert T.Runs(cfg, st, [], st);
    assert [step][1..] == [];
    assert T.Runs(cfg, T.INITIAL, [step], st);
  }

  /** The premises above do meet: a submitted request whose ordinary reply arrived in time is delivered long after. */
  lemma AnOrdinaryReplyIsDelivered()
    returns (cfg: Wire.Settings, st: Wire.State, raw: Wire.RawResponse, takes: nat -> bool, result: Wire.ProviderResult)
    ensures T.Reachable(cfg, st) && raw.token in st.exchanges && st.exchanges[raw.token].expires < 1_000_000
    ensures Wire.Event(raw.token, Wire.Delivered(raw, result)) in Wire.Resolved(cfg, st, [raw], takes, 1_000_000).log
    ensures result.kind == Wire.Message && result.text == "ok"
  {
    cfg := Wire.Settings(seq(32, _ => 'k'), 1_000);
    takes := (i: nat) => false;
    var r, request, f, md := OrdinaryReply();
    st := FirstSubmissionIsReachable(cfg, Wire.Request(1, 1, []));
    hide ParseSocialResponse, ValidateSocialReply, OneCoherentAnswer, Survives, T.Reachable, Wire.Resolved;
    ValidatedIsCoherent(r, request, f, cfg.bridgeToken, md);
    var out := SpokenFrame(r, ("ok", 0), md);
    var frame := EncodeSocialResponse(1, 1, request.channel, cfg.bridgeToken, out).value;
    raw := Wire.RawResponse(1, frame, 0);
    result := Intended(r, request, ("ok", 0), md);
    ValidatedReplyIsDeliveredIff(cfg, st, r, request, f, md, 0, [raw], takes, 1_000_000, 0);
  }
}
