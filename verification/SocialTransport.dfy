/**
 * The transport between the coordinator and the bridge: outstanding exchanges with deadlines, one
 * regeneration each, answers judged by when they arrived, and a sweep for what never answered. The bridge's
 * answer to every enqueue is an arbitrary boolean. The history is kept as a log of marks per token.
 */
module SocialTransport {
  import opened Bytes
  import opened Wrappers
  import opened SocialFrame

  const MAX_OUTSTANDING_SOCIAL_REQUESTS: nat := 512
  const MAX_REGENERATIONS_PER_REQUEST: nat := 1
  const PROVIDER_TIMEOUT_SECONDS: int := 30
  const SOCIAL_CHANNELS: nat := 4

  datatype Request = Request(token: nat, bot: nat, body: bytes)
  datatype Exchange = Exchange(token: nat, bot: nat, regenerations: nat)
  datatype Outstanding = Outstanding(exchange: Exchange, request: Request, expires: int)
  datatype RawResponse = RawResponse(token: nat, payload: bytes, receivedAt: int)

  datatype OutputKind = Emote | Message | Silence
  datatype ProviderResult = ProviderResult(
    token: nat, kind: OutputKind, emote: nat, text: bytes, channel: nat, metadata: CallMetadata, proposal: Proposal)

  datatype Outcome = Deliver | Regenerate | Abandon
  datatype Completed = Completed(token: nat, outcome: Outcome, result: Option<ProviderResult>)

  /** What happened to a token: handed to the bridge at a time and with a deadline, reported, or forgotten by Clear. */
  datatype Mark =
    | Enqueued(request: Request, at: int, expires: int)
    | Regenerated
    | Delivered(raw: RawResponse, result: ProviderResult)
    | Abandoned
    | Dropped

  datatype Event = Event(token: nat, mark: Mark)
  datatype State = State(exchanges: map<nat, Outstanding>, log: seq<Event>)

  datatype Settings = Settings(bridgeToken: bytes, configuredDeadlineMs: int) {
    /** No exchange outlives the coordinator's own timeout. */
    function DeadlineMs(): int {
      if configuredDeadlineMs < PROVIDER_TIMEOUT_SECONDS * 1000 then configuredDeadlineMs
      else PROVIDER_TIMEOUT_SECONDS * 1000
    }
  }

  // ---- One answer ----

  function Classify(e: Exchange, payload: bytes, bridgeToken: bytes): (Outcome, Exchange, Option<SocialResponse>) {
    var parsed := ParseSocialResponse(payload, bridgeToken, e.token, e.bot);
    if parsed.None? then (Abandon, e, None)
    else if parsed.value.Regeneration? then
      if e.regenerations >= MAX_REGENERATIONS_PER_REQUEST then (Abandon, e, None)
      else (Regenerate, e.(regenerations := e.regenerations + 1), None)
    else (Deliver, e, parsed)
  }

  function ResultOf(token: nat, r: SocialResponse): ProviderResult
    requires r.Deliverable?
  {
    ProviderResult(token, if r.emote != 0 then Emote else if r.message != [] then Message else Silence,
                   r.emote, if r.emote != 0 then [] else r.message, r.channel, r.metadata, r.proposal)
  }

  function Finish(st: State, token: nat, mark: Mark): State {
    State(st.exchanges - {token}, st.log + [Event(token, mark)])
  }

  function Answered(cfg: Settings, st: State, raw: RawResponse, taken: bool, now: int): State {
    if raw.token !in st.exchanges then st
    else
      var o := st.exchanges[raw.token];
      if raw.receivedAt > o.expires then Finish(st, raw.token, Abandoned)
      else
        var (outcome, exchange, response) := Classify(o.exchange, raw.payload, cfg.bridgeToken);
        match outcome
        case Regenerate =>
          var expires := now + cfg.DeadlineMs();
          if taken then
            State(st.exchanges[raw.token := Outstanding(exchange, o.request, expires)],
                  st.log + [Event(raw.token, Enqueued(o.request, now, expires)), Event(raw.token, Regenerated)])
          else Finish(st, raw.token, Abandoned)
        case Abandon => Finish(st, raw.token, Abandoned)
        case Deliver =>
          if response.value.channel >= SOCIAL_CHANNELS then Finish(st, raw.token, Abandoned)
          else Finish(st, raw.token, Delivered(raw, ResultOf(raw.token, response.value)))
  }

  /** The first n answers of a drain, in order; takes(i) is what the bridge says should the i-th ask for a retry. */
  function AnswerAll(cfg: Settings, st: State, responses: seq<RawResponse>, takes: nat -> bool, now: int, n: nat): State
    requires n <= |responses|
  {
    if n == 0 then st
    else Answered(cfg, AnswerAll(cfg, st, responses, takes, now, n - 1), responses[n - 1], takes(n - 1), now)
  }

  // ---- The sweep ----

  /** The greatest element, and the elements in ascending order: the order the map is walked in. */
  ghost function Greatest(s: set<nat>): (m: nat)
    requires s != {}
    ensures m in s && forall x | x in s :: x <= m
  {
    var x :| x in s;
    if s == {x} then x
    else
      var rest := Greatest(s - {x});
      assert forall y | y in s :: y == x || y in s - {x};
      if rest < x then x else rest
  }

  ghost function Ascending(s: set<nat>): (tokens: seq<nat>)
    ensures |tokens| == |s| && forall t :: t in tokens <==> t in s
  {
    if s == {} then []
    else
      var m := Greatest(s);
      assert forall t | t in s :: t == m || t in s - {m};
      Ascending(s - {m}) + [m]
  }

  ghost function EventsFor(tokens: seq<nat>, mark: Mark): (events: seq<Event>)
    ensures |events| == |tokens| && forall i | 0 <= i < |tokens| :: events[i] == Event(tokens[i], mark)
  {
    seq(|tokens|, i requires 0 <= i < |tokens| => Event(tokens[i], mark))
  }

  ghost function Due(st: State, now: int): set<nat> {
    set t | t in st.exchanges && st.exchanges[t].expires <= now
  }

  ghost function Sweep(st: State, now: int): State {
    State(st.exchanges - Due(st, now), st.log + EventsFor(Ascending(Due(st, now)), Abandoned))
  }

  ghost function Resolved(cfg: Settings, st: State, responses: seq<RawResponse>, takes: nat -> bool, now: int): State {
    Sweep(AnswerAll(cfg, st, responses, takes, now, |responses|), now)
  }

  // ---- Submitting and clearing ----

  predicate Accepts(st: State, request: Request, usable: bool, taken: bool) {
    usable && request.token !in st.exchanges && |st.exchanges| < MAX_OUTSTANDING_SOCIAL_REQUESTS && taken
  }

  function Submitted(cfg: Settings, st: State, request: Request, now: int, usable: bool, taken: bool): State {
    if !Accepts(st, request, usable, taken) then st
    else
      var expires := now + cfg.DeadlineMs();
      State(st.exchanges[request.token := Outstanding(Exchange(request.token, request.bot, 0), request, expires)],
            st.log + [Event(request.token, Enqueued(request, now, expires))])
  }

  ghost function ClearedState(st: State): State {
    State(map[], st.log + EventsFor(Ascending(st.exchanges.Keys), Dropped))
  }

  // ---- What is reported ----

  function Report(e: Event): seq<Completed> {
    match e.mark
    case Regenerated => [Completed(e.token, Regenerate, None)]
    case Delivered(_, result) => [Completed(e.token, Deliver, Some(result))]
    case Abandoned => [Completed(e.token, Abandon, None)]
    case _ => []
  }

  /** What the coordinator sees of a stretch of the log. */
  function Reports(log: seq<Event>): seq<Completed> {
    if log == [] then [] else Reports(log[..|log| - 1]) + Report(log[|log| - 1])
  }

  lemma ReportsSnoc(log: seq<Event>, e: Event)
    ensures Reports(log + [e]) == Reports(log) + Report(e)
  {
    assert (log + [e])[..|log|] == log;
  }

  lemma {:induction false} ReportsConcat(a: seq<Event>, b: seq<Event>)
    ensures Reports(a + b) == Reports(a) + Reports(b)
  {
    hide Report;
    if b == [] {
      assert a + b == a;
    } else {
      var front, last := b[..|b| - 1], b[|b| - 1];
      assert a + b == (a + front) + [last];
      ReportsSnoc(a + front, last);
      ReportsConcat(a, front);
      assert Reports(a) + (Reports(front) + Report(last)) == (Reports(a) + Reports(front)) + Report(last);
    }
  }
}
