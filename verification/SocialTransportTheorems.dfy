/** The transport's promises, over every run of Submit, Resolve, and Clear whose tokens are not reused. */
module SocialTransportTheorems {
  import opened Bytes
  import opened Wrappers
  import opened SocialFrame
  import opened SocialTransport

  datatype Step =
    | Submit(request: Request, now: int, usable: bool, taken: bool)
    | Resolve(responses: seq<RawResponse>, takes: nat -> bool, now: int)
    | Clear

  const INITIAL: State := State(map[], [])

  ghost function Next(cfg: Settings, st: State, step: Step): State {
    match step
    case Submit(request, now, usable, taken) => Submitted(cfg, st, request, now, usable, taken)
    case Resolve(responses, takes, now) => Resolved(cfg, st, responses, takes, now)
    case Clear => ClearedState(st)
  }

  /** A token that was accepted before is never submitted again: the coordinator's part. */
  ghost predicate Allowed(st: State, step: Step) {
    step.Submit? ==> Story(st.log, step.request.token) == []
  }

  ghost predicate Runs(cfg: Settings, start: State, steps: seq<Step>, end: State)
    decreases |steps|
  {
    if steps == [] then end == start
    else Allowed(start, steps[0]) && Runs(cfg, Next(cfg, start, steps[0]), steps[1..], end)
  }

  ghost predicate Reachable(cfg: Settings, st: State) { exists steps :: Runs(cfg, INITIAL, steps, st) }

  // ---- One token's story ----

  function Story(log: seq<Event>, token: nat): seq<Mark> {
    if log == [] then []
    else Story(log[..|log| - 1], token) + (if log[|log| - 1].token == token then [log[|log| - 1].mark] else [])
  }

  lemma StorySnoc(log: seq<Event>, e: Event, token: nat)
    ensures Story(log + [e], token) == if e.token == token then Story(log, token) + [e.mark] else Story(log, token)
  {
    assert (log + [e])[..|log|] == log;
    assert Story(log, token) + [] == Story(log, token);
  }

  lemma {:induction false} StoryConcat(a: seq<Event>, b: seq<Event>, token: nat)
    ensures Story(a + b, token) == Story(a, token) + Story(b, token)
  {
    if b == [] {
      assert a + b == a;
    } else {
      var front, last := b[..|b| - 1], b[|b| - 1];
      assert a + b == (a + front) + [last];
      StorySnoc(a + front, last, token);
      StoryConcat(a, front, token);
    }
  }

  lemma MarkedSplit(s: set<nat>, mark: Mark) returns (m: nat)
    requires s != {}
    ensures m in s && EventsFor(Ascending(s), mark) == EventsFor(Ascending(s - {m}), mark) + [Event(m, mark)]
  {
    m := Greatest(s);
    hide Greatest;
    assert Ascending(s) == Ascending(s - {m}) + [m];
  }

  /** Marking a set of tokens marks each of them once and nobody else. */
  lemma {:induction false} StoryOfMarked(s: set<nat>, mark: Mark, token: nat)
    ensures Story(EventsFor(Ascending(s), mark), token) == if token in s then [mark] else []
    decreases s
  {
    if s == {} {
      assert EventsFor(Ascending(s), mark) == [];
    } else {
      hide Ascending, EventsFor;
      var m := MarkedSplit(s, mark);
      StoryOfMarked(s - {m}, mark, token);
      StorySnoc(EventsFor(Ascending(s - {m}), mark), Event(m, mark), token);
    }
  }

  /** An enqueue with the whole configured deadline ahead of it, or the coordinator's own thirty seconds if less. */
  ghost predicate InTime(cfg: Settings, m: Mark) {
    m.Enqueued? && m.expires == m.at + (if cfg.configuredDeadlineMs < 30_000 then cfg.configuredDeadlineMs else 30_000)
  }

  /** Accepted once, or accepted, then asked again once under the same request. */
  ghost predicate Open(cfg: Settings, token: nat, story: seq<Mark>) {
    && (|story| == 1 || |story| == 3)
    && InTime(cfg, story[0]) && story[0].request.token == token
    && (|story| == 3 ==> InTime(cfg, story[1]) && story[1].request == story[0].request && story[2].Regenerated?)
  }

  /** The enqueue whose deadline is in force. */
  ghost function InForce(cfg: Settings, token: nat, story: seq<Mark>): (m: Mark)
    requires Open(cfg, token, story)
    ensures m.Enqueued? && m.request == story[0].request
  {
    if |story| == 1 then story[0] else story[1]
  }

  /** Delivered only in time, and only what the payload says for this token and this bot. */
  ghost predicate Justified(cfg: Settings, token: nat, story: seq<Mark>, last: Mark)
    requires Open(cfg, token, story)
  {
    last.Delivered? ==>
      && last.raw.token == token && last.raw.receivedAt <= InForce(cfg, token, story).expires
      && var parsed := ParseSocialResponse(last.raw.payload, cfg.bridgeToken, token, story[0].request.bot);
         && parsed.Some? && parsed.value.Deliverable?
         && parsed.value.channel < SOCIAL_CHANNELS && last.result == ResultOf(token, parsed.value)
  }

  ghost predicate Closed(cfg: Settings, token: nat, story: seq<Mark>) {
    && story != []
    && var before, last := story[..|story| - 1], story[|story| - 1];
       Open(cfg, token, before) && (last.Delivered? || last.Abandoned? || last.Dropped?)
         && Justified(cfg, token, before, last)
  }

  /** An outstanding exchange is what its story says: same request, deadline in force, one mark a retry. */
  ghost predicate Agrees(cfg: Settings, token: nat, o: Outstanding, story: seq<Mark>) {
    && Open(cfg, token, story) && o.request == story[0].request && o.expires == InForce(cfg, token, story).expires
    && o.exchange == Exchange(token, o.request.bot, if |story| == 1 then 0 else 1)
  }

  ghost predicate TokenOk(cfg: Settings, st: State, token: nat) {
    var story := Story(st.log, token);
    if token in st.exchanges then Agrees(cfg, token, st.exchanges[token], story)
    else story == [] || Closed(cfg, token, story)
  }

  ghost predicate Inv(cfg: Settings, st: State) {
    |st.exchanges| <= MAX_OUTSTANDING_SOCIAL_REQUESTS && forall token: nat :: TokenOk(cfg, st, token)
  }

  // ---- Every step keeps it ----

  lemma FinishKeeps(cfg: Settings, st: State, token: nat, mark: Mark)
    requires Inv(cfg, st) && token in st.exchanges
    requires mark.Delivered? || mark.Abandoned? || mark.Dropped?
    requires Open(cfg, token, Story(st.log, token)) ==> Justified(cfg, token, Story(st.log, token), mark)
    ensures Inv(cfg, Finish(st, token, mark))
  {
    hide Justified;
    var after := Finish(st, token, mark);
    assert after.exchanges.Keys == st.exchanges.Keys - {token};
    forall k: nat ensures TokenOk(cfg, after, k) {
      assert TokenOk(cfg, st, k);
      StorySnoc(st.log, Event(token, mark), k);
      if k == token { assert Story(after.log, k)[..|Story(after.log, k)| - 1] == Story(st.log, k); }
    }
  }

  lemma RetryKeeps(cfg: Settings, st: State, token: nat, exchange: Exchange, now: int)
    requires Inv(cfg, st) && token in st.exchanges
    requires var o := st.exchanges[token];
      o.exchange.regenerations == 0 && exchange == o.exchange.(regenerations := 1)
    ensures var o, expires := st.exchanges[token], now + cfg.DeadlineMs();
      Inv(cfg, State(st.exchanges[token := Outstanding(exchange, o.request, expires)],
                     st.log + [Event(token, Enqueued(o.request, now, expires)), Event(token, Regenerated)]))
  {
    hide Justified;
    var o, expires := st.exchanges[token], now + cfg.DeadlineMs();
    var enqueued, regenerated := Event(token, Enqueued(o.request, now, expires)), Event(token, Regenerated);
    var after := State(st.exchanges[token := Outstanding(exchange, o.request, expires)],
                       st.log + [enqueued, regenerated]);
    assert after.exchanges.Keys == st.exchanges.Keys;
    forall k: nat ensures TokenOk(cfg, after, k) {
      assert TokenOk(cfg, st, k);
      assert after.log == (st.log + [enqueued]) + [regenerated];
      StorySnoc(st.log + [enqueued], regenerated, k);
      StorySnoc(st.log, enqueued, k);
    }
  }

  lemma AnsweredKeeps(cfg: Settings, st: State, raw: RawResponse, taken: bool, now: int)
    requires Inv(cfg, st)
    ensures Inv(cfg, Answered(cfg, st, raw, taken, now))
  {
    hide Inv, ParseSocialResponse, Story;
    if raw.token in st.exchanges {
      var o := st.exchanges[raw.token];
      AgreesNow(cfg, st, raw.token);
      if raw.receivedAt > o.expires {
        FinishKeeps(cfg, st, raw.token, Abandoned);
      } else {
        var (outcome, exchange, response) := Classify(o.exchange, raw.payload, cfg.bridgeToken);
        match outcome {
          case Regenerate =>
            if taken { RetryKeeps(cfg, st, raw.token, exchange, now); }
            else { FinishKeeps(cfg, st, raw.token, Abandoned); }
          case Abandon => FinishKeeps(cfg, st, raw.token, Abandoned);
          case Deliver =>
            if response.value.channel >= SOCIAL_CHANNELS { FinishKeeps(cfg, st, raw.token, Abandoned); }
            else { FinishKeeps(cfg, st, raw.token, Delivered(raw, ResultOf(raw.token, response.value))); }
        }
      }
    }
  }

  lemma AgreesNow(cfg: Settings, st: State, token: nat)
    requires Inv(cfg, st) && token in st.exchanges
    ensures Agrees(cfg, token, st.exchanges[token], Story(st.log, token))
  {
    assert TokenOk(cfg, st, token);
  }

  lemma {:induction false} AnswerAllKeeps(cfg: Settings, st: State, responses: seq<RawResponse>, takes: nat -> bool,
                                          now: int, n: nat)
    requires Inv(cfg, st) && n <= |responses|
    ensures Inv(cfg, AnswerAll(cfg, st, responses, takes, now, n))
  {
    hide Inv, Answered;
    if n > 0 {
      AnswerAllKeeps(cfg, st, responses, takes, now, n - 1);
      AnsweredKeeps(cfg, AnswerAll(cfg, st, responses, takes, now, n - 1), responses[n - 1], takes(n - 1), now);
    }
  }

  /** Ending a whole set of outstanding exchanges at once, by the sweep or by Clear. */
  lemma EndAllKeeps(cfg: Settings, st: State, ended: set<nat>, mark: Mark)
    requires Inv(cfg, st) && ended <= st.exchanges.Keys && (mark.Abandoned? || mark.Dropped?)
    ensures Inv(cfg, State(st.exchanges - ended, st.log + EventsFor(Ascending(ended), mark)))
  {
    hide Ascending, EventsFor;
    var events := EventsFor(Ascending(ended), mark);
    var after := State(st.exchanges - ended, st.log + events);
    assert after.exchanges.Keys == st.exchanges.Keys - ended;
    forall k: nat ensures TokenOk(cfg, after, k) {
      assert TokenOk(cfg, st, k);
      StoryConcat(st.log, events, k);
      StoryOfMarked(ended, mark, k);
      EndedStory(cfg, st, after, k, mark, ended);
    }
  }

  lemma EndedStory(cfg: Settings, st: State, after: State, k: nat, mark: Mark, ended: set<nat>)
    requires TokenOk(cfg, st, k) && ended <= st.exchanges.Keys && (mark.Abandoned? || mark.Dropped?)
    requires Story(after.log, k) == Story(st.log, k) + (if k in ended then [mark] else [])
    requires after.exchanges == st.exchanges - ended
    ensures TokenOk(cfg, after, k)
  {
    if k in ended { assert Story(after.log, k)[..|Story(after.log, k)| - 1] == Story(st.log, k); }
  }

  lemma SubmittedToken(cfg: Settings, st: State, request: Request, now: int, k: nat)
    requires TokenOk(cfg, st, k) && request.token !in st.exchanges && Story(st.log, request.token) == []
    ensures var expires := now + cfg.DeadlineMs();
      var exchange := Outstanding(Exchange(request.token, request.bot, 0), request, expires);
      TokenOk(cfg, State(st.exchanges[request.token := exchange],
                         st.log + [Event(request.token, Enqueued(request, now, expires))]), k)
  {
    hide Closed, Agrees, Story;
    var mark := Enqueued(request, now, now + cfg.DeadlineMs());
    StorySnoc(st.log, Event(request.token, mark), k);
    if k == request.token {
      assert [] + [mark] == [mark];
      NewAgrees(cfg, request, now);
    }
  }

  lemma SubmittedKeeps(cfg: Settings, st: State, request: Request, now: int, usable: bool, taken: bool)
    requires Inv(cfg, st) && Story(st.log, request.token) == []
    ensures Inv(cfg, Submitted(cfg, st, request, now, usable, taken))
  {
    hide TokenOk, Story;
    if Accepts(st, request, usable, taken) {
      var after := Submitted(cfg, st, request, now, usable, taken);
      assert after.exchanges.Keys == st.exchanges.Keys + {request.token};
      forall k: nat ensures TokenOk(cfg, after, k) { SubmittedToken(cfg, st, request, now, k); }
    }
  }

  lemma NewAgrees(cfg: Settings, request: Request, now: int)
    ensures var expires := now + cfg.DeadlineMs();
      Agrees(cfg, request.token, Outstanding(Exchange(request.token, request.bot, 0), request, expires),
             [Enqueued(request, now, expires)])
  {
  }

  lemma NextKeeps(cfg: Settings, st: State, step: Step)
    requires Inv(cfg, st) && Allowed(st, step)
    ensures Inv(cfg, Next(cfg, st, step))
  {
    hide Inv, Ascending, EventsFor;
    match step {
      case Submit(request, now, usable, taken) => SubmittedKeeps(cfg, st, request, now, usable, taken);
      case Resolve(responses, takes, now) =>
        AnswerAllKeeps(cfg, st, responses, takes, now, |responses|);
        var answered := AnswerAll(cfg, st, responses, takes, now, |responses|);
        EndAllKeeps(cfg, answered, Due(answered, now), Abandoned);
      case Clear =>
        EndAllKeeps(cfg, st, st.exchanges.Keys, Dropped);
        assert st.exchanges - st.exchanges.Keys == map[];
    }
  }

  lemma {:induction false} RunKeeps(cfg: Settings, start: State, steps: seq<Step>, end: State)
    requires Inv(cfg, start) && Runs(cfg, start, steps, end)
    ensures Inv(cfg, end)
    decreases |steps|
  {
    hide Inv, Allowed, Next;
    if steps != [] {
      NextKeeps(cfg, start, steps[0]);
      RunKeeps(cfg, Next(cfg, start, steps[0]), steps[1..], end);
    }
  }

  lemma {:induction false} RunSnoc(cfg: Settings, start: State, steps: seq<Step>, middle: State, last: Step)
    requires Runs(cfg, start, steps, middle) && Allowed(middle, last)
    ensures Runs(cfg, start, steps + [last], Next(cfg, middle, last))
    decreases |steps|
  {
    hide Allowed, Next;
    if steps == [] {
      assert [last][1..] == [] && [] + [last] == [last];
      assert Runs(cfg, Next(cfg, middle, last), [], Next(cfg, middle, last));
    } else {
      assert (steps + [last])[1..] == steps[1..] + [last];
      RunSnoc(cfg, Next(cfg, start, steps[0]), steps[1..], middle, last);
    }
  }

  lemma StepIsReachable(cfg: Settings, st: State, step: Step)
    requires Reachable(cfg, st) && Allowed(st, step)
    ensures Reachable(cfg, Next(cfg, st, step))
  {
    var steps :| Runs(cfg, INITIAL, steps, st);
    RunSnoc(cfg, INITIAL, steps, st, step);
  }

  lemma ReachableInv(cfg: Settings, st: State)
    requires Reachable(cfg, st)
    ensures Inv(cfg, st)
  {
    var steps :| Runs(cfg, INITIAL, steps, st);
    forall token: nat ensures TokenOk(cfg, INITIAL, token) { assert Story([], token) == []; }
    RunKeeps(cfg, INITIAL, steps, st);
  }

  // ---- The promises ----

  /**
   * The life of a token, over every run: not accepted yet; or accepted and outstanding, asked again at
   * most once and then with the same request, each time with the whole deadline ahead of it and never more
   * than thirty seconds; or ended exactly once, by one delivery of what an answer in time really said, one
   * abandonment, or Clear. Nothing ever follows the end.
   */
  lemma TokenLife(cfg: Settings, st: State, token: nat)
    requires Reachable(cfg, st)
    ensures var story := Story(st.log, token);
      && (token in st.exchanges <==> Open(cfg, token, story))
      && (token !in st.exchanges <==> story == [] || Closed(cfg, token, story))
      && (token in st.exchanges ==> Agrees(cfg, token, st.exchanges[token], story))
  {
    ReachableInv(cfg, st);
    assert TokenOk(cfg, st, token);
    OpenOrClosed(cfg, token, Story(st.log, token));
  }

  lemma OpenOrClosed(cfg: Settings, token: nat, story: seq<Mark>)
    ensures !(Open(cfg, token, story) && (story == [] || Closed(cfg, token, story)))
  {
  }

  function CountEnqueued(story: seq<Mark>): nat {
    if story == [] then 0 else CountEnqueued(story[..|story| - 1]) + (if story[|story| - 1].Enqueued? then 1 else 0)
  }

  function Tells(m: Mark): seq<Outcome> {
    match m
    case Regenerated => [Regenerate]
    case Delivered(_, _) => [Deliver]
    case Abandoned => [Abandon]
    case _ => []
  }

  /** What the coordinator is told about one token. */
  function Told(story: seq<Mark>): seq<Outcome> {
    if story == [] then [] else Told(story[..|story| - 1]) + Tells(story[|story| - 1])
  }

  lemma OpenCounts(cfg: Settings, token: nat, story: seq<Mark>)
    requires Open(cfg, token, story)
    ensures CountEnqueued(story) <= 2 && (Told(story) == [] || Told(story) == [Regenerate])
  {
    var first := story[..1];
    assert first[..0] == [];
    assert CountEnqueued(first) == 1 && Told(first) == [];
    if |story| == 1 {
      assert first == story;
    } else {
      var second := story[..2];
      assert second[..1] == first && story[..2] == second;
      assert CountEnqueued(second) == 2 && Told(second) == [];
    }
  }

  predicate FewCompletions(told: seq<Outcome>) {
    || told == [] || told == [Regenerate] || told == [Deliver] || told == [Abandon]
    || told == [Regenerate, Deliver] || told == [Regenerate, Abandon]
  }

  lemma ClosedCounts(cfg: Settings, token: nat, story: seq<Mark>)
    requires Closed(cfg, token, story)
    ensures CountEnqueued(story) <= 2 && FewCompletions(Told(story))
  {
    hide Justified, Open;
    OpenCounts(cfg, token, story[..|story| - 1]);
  }

  /** At most one Regenerate, then at most one Deliver or Abandon; at most two enqueues. */
  lemma CompletionsAreBounded(cfg: Settings, st: State, token: nat)
    requires Reachable(cfg, st)
    ensures CountEnqueued(Story(st.log, token)) <= 2
    ensures FewCompletions(Told(Story(st.log, token)))
  {
    hide Open, Closed, Agrees, Reachable;
    var story := Story(st.log, token);
    TokenLife(cfg, st, token);
    if Open(cfg, token, story) {
      OpenCounts(cfg, token, story);
    } else if story != [] {
      ClosedCounts(cfg, token, story);
    }
  }

  lemma ReportTells(e: Event)
    ensures |Report(e)| == |Tells(e.mark)| <= 1
    ensures Report(e) != [] ==> Report(e)[0].token == e.token && Report(e)[0].outcome == Tells(e.mark)[0]
  {
  }

  lemma OutcomesSnoc(reports: seq<Completed>, c: Completed, token: nat)
    ensures OutcomesFor(reports + [c], token)
      == OutcomesFor(reports, token) + (if c.token == token then [c.outcome] else [])
  {
    assert (reports + [c])[..|reports|] == reports;
  }

  /** A token's part of the reports is exactly what its story tells. */
  lemma {:induction false} ToldIsReported(log: seq<Event>, token: nat)
    ensures Told(Story(log, token)) == OutcomesFor(Reports(log), token)
  {
    hide Report, Tells;
    if log != [] {
      var front, e := log[..|log| - 1], log[|log| - 1];
      var story := Story(front, token);
      ToldIsReported(front, token);
      assert log == front + [e];
      StorySnoc(front, e, token);
      ReportsSnoc(front, e);
      ReportTells(e);
      assert (story + [e.mark])[..|story|] == story;
      if Report(e) == [] {
        assert Reports(front) + [] == Reports(front) && Told(story) + [] == Told(story);
      } else {
        assert Report(e) == [Report(e)[0]] && Tells(e.mark) == [Tells(e.mark)[0]];
        OutcomesSnoc(Reports(front), Report(e)[0], token);
      }
    }
  }

  function OutcomesFor(reports: seq<Completed>, token: nat): seq<Outcome> {
    if reports == [] then []
    else
      var last := reports[|reports| - 1];
      OutcomesFor(reports[..|reports| - 1], token) + (if last.token == token then [last.outcome] else [])
  }

  /** A token's story never tells of two different endings. */
  lemma OneEnding(cfg: Settings, st: State, token: nat, a: Mark, b: Mark)
    requires Reachable(cfg, st) && Event(token, a) in st.log && Event(token, b) in st.log
    requires (a.Delivered? || a.Abandoned? || a.Dropped?) && (b.Delivered? || b.Abandoned? || b.Dropped?)
    ensures a == b
  {
    hide Story, Open, Closed, Agrees, Reachable;
    TokenLife(cfg, st, token);
    OnlyTheLastEnds(cfg, token, Story(st.log, token));
    EndingIsLast(st.log, token, a);
    EndingIsLast(st.log, token, b);
  }

  lemma EndingIsLast(log: seq<Event>, token: nat, ending: Mark)
    requires Event(token, ending) in log && (ending.Delivered? || ending.Abandoned? || ending.Dropped?)
    requires var story := Story(log, token);
      forall i | 0 <= i < |story| - 1 :: story[i].Enqueued? || story[i].Regenerated?
    ensures Story(log, token) != [] && Story(log, token)[|Story(log, token)| - 1] == ending
  {
    InStory(log, token, ending);
    hide Story;
    var i :| 0 <= i < |Story(log, token)| && Story(log, token)[i] == ending;
  }

  // The tokens, split.

  function Accepted(log: seq<Event>): set<nat> { set e | e in log && e.mark.Enqueued? :: e.token }
  function Terminal(log: seq<Event>): set<nat> {
    set e | e in log && (e.mark.Delivered? || e.mark.Abandoned?) :: e.token
  }
  function Forgotten(log: seq<Event>): set<nat> { set e | e in log && e.mark.Dropped? :: e.token }

  lemma {:induction false} InStory(log: seq<Event>, token: nat, mark: Mark)
    ensures mark in Story(log, token) <==> Event(token, mark) in log
  {
    if log != [] {
      var front, e := log[..|log| - 1], log[|log| - 1];
      InStory(front, token, mark);
      assert log == front + [e];
    }
  }

  ghost predicate EndedBy(story: seq<Mark>, cleared: bool) {
    story != [] && var last := story[|story| - 1]; if cleared then last.Dropped? else last.Delivered? || last.Abandoned?
  }

  lemma MarkedInLog(log: seq<Event>, token: nat, mark: Mark)
    requires mark in Story(log, token)
    ensures Event(token, mark) in log
  {
    InStory(log, token, mark);
  }

  lemma EndedInStory(log: seq<Event>, token: nat, cleared: bool)
    requires var story := Story(log, token);
      forall i | 0 <= i < |story| - 1 :: story[i].Enqueued? || story[i].Regenerated?
    ensures EndedBy(Story(log, token), cleared) <==> token in (if cleared then Forgotten(log) else Terminal(log))
  {
    hide Story;
    var story := Story(log, token);
    if EndedBy(story, cleared) { MarkedInLog(log, token, story[|story| - 1]); }
    if e :| e in log && e.token == token && EndedBy([e.mark], cleared) {
      EndingIsLast(log, token, e.mark);
    }
  }

  lemma AcceptedInStory(log: seq<Event>, token: nat)
    requires Story(log, token) != [] ==> Story(log, token)[0].Enqueued?
    ensures token in Accepted(log) <==> Story(log, token) != []
  {
    hide Story;
    if Story(log, token) != [] { MarkedInLog(log, token, Story(log, token)[0]); }
    if e :| e in log && e.token == token && e.mark.Enqueued? { InStory(log, token, e.mark); }
  }

  lemma WhereMarked(cfg: Settings, st: State, token: nat)
    requires var story := Story(st.log, token); story == [] || Open(cfg, token, story) || Closed(cfg, token, story)
    ensures token in Accepted(st.log) <==> Story(st.log, token) != []
    ensures token in Terminal(st.log) <==> EndedBy(Story(st.log, token), false)
    ensures token in Forgotten(st.log) <==> EndedBy(Story(st.log, token), true)
  {
    OnlyTheLastEnds(cfg, token, Story(st.log, token));
    hide Story, Open, Closed, Accepted, Terminal, Forgotten, EndedBy;
    AcceptedInStory(st.log, token);
    EndedInStory(st.log, token, false);
    EndedInStory(st.log, token, true);
  }

  lemma StoryEndsOnce(cfg: Settings, token: nat, story: seq<Mark>)
    ensures !(EndedBy(story, true) && EndedBy(story, false))
    ensures story == [] ==> !EndedBy(story, true) && !EndedBy(story, false)
    ensures Open(cfg, token, story) ==> story != [] && !EndedBy(story, true) && !EndedBy(story, false)
    ensures Closed(cfg, token, story) ==> story != [] && (EndedBy(story, true) || EndedBy(story, false))
  {
    hide Justified;
  }

  lemma TokenIsAccountedFor(cfg: Settings, st: State, token: nat)
    requires Reachable(cfg, st)
    ensures token in Accepted(st.log) <==>
      token in st.exchanges || token in Terminal(st.log) || token in Forgotten(st.log)
    ensures token in st.exchanges ==> token !in Terminal(st.log) && token !in Forgotten(st.log)
    ensures !(token in Terminal(st.log) && token in Forgotten(st.log))
  {
    hide Story, Open, Closed, Agrees, Accepted, Terminal, Forgotten, EndedBy, Reachable;
    TokenLife(cfg, st, token);
    WhereMarked(cfg, st, token);
    StoryEndsOnce(cfg, token, Story(st.log, token));
  }

  /** Every accepted token is outstanding, ended by a report, or forgotten by Clear, and never two of these. */
  lemma AcceptedTokensAreAccountedFor(cfg: Settings, st: State)
    requires Reachable(cfg, st)
    ensures Accepted(st.log) == st.exchanges.Keys + Terminal(st.log) + Forgotten(st.log)
    ensures st.exchanges.Keys !! Terminal(st.log) && st.exchanges.Keys !! Forgotten(st.log)
    ensures Terminal(st.log) !! Forgotten(st.log)
  {
    hide Accepted, Terminal, Forgotten, Reachable;
    forall token: nat
      ensures token in Accepted(st.log) <==>
        token in st.exchanges || token in Terminal(st.log) || token in Forgotten(st.log)
      ensures token in st.exchanges ==> token !in Terminal(st.log) && token !in Forgotten(st.log)
      ensures !(token in Terminal(st.log) && token in Forgotten(st.log))
    {
      TokenIsAccountedFor(cfg, st, token);
    }
  }

  lemma OnlyTheLastEnds(cfg: Settings, token: nat, story: seq<Mark>)
    requires story == [] || Open(cfg, token, story) || Closed(cfg, token, story)
    ensures story != [] ==> story[0].Enqueued?
    ensures forall i | 0 <= i < |story| - 1 :: story[i].Enqueued? || story[i].Regenerated?
  {
    hide Justified;
    if story != [] && Closed(cfg, token, story) {
      var before := story[..|story| - 1];
      assert forall i | 0 <= i < |before| :: story[i] == before[i];
    }
  }

  /** After a drain nothing overdue is left, nothing new is outstanding, and the bound still holds. */
  lemma NothingOverdueSurvives(cfg: Settings, st: State, responses: seq<RawResponse>, takes: nat -> bool, now: int)
    requires Reachable(cfg, st)
    ensures var after := Resolved(cfg, st, responses, takes, now);
      && (forall token | token in after.exchanges :: after.exchanges[token].expires > now)
      && after.exchanges.Keys <= st.exchanges.Keys
      && |after.exchanges| <= MAX_OUTSTANDING_SOCIAL_REQUESTS
      && (forall token | token in after.exchanges ::
        after.exchanges[token].exchange.regenerations <= MAX_REGENERATIONS_PER_REQUEST)
  {
    ReachableInv(cfg, st);
    NextKeeps(cfg, st, Resolve(responses, takes, now));
    KeysOnlyShrink(cfg, st, responses, takes, now, |responses|);
    var after := Resolved(cfg, st, responses, takes, now);
    hide Ascending, EventsFor, AnswerAll;
    forall token | token in after.exchanges ensures after.exchanges[token].exchange.regenerations <= 1 {
      AgreesNow(cfg, after, token);
    }
  }

  lemma {:induction false} KeysOnlyShrink(cfg: Settings, st: State, responses: seq<RawResponse>, takes: nat -> bool,
                                          now: int, n: nat)
    requires n <= |responses|
    ensures AnswerAll(cfg, st, responses, takes, now, n).exchanges.Keys <= st.exchanges.Keys
  {
    hide Classify, ParseSocialResponse;
    if n > 0 { KeysOnlyShrink(cfg, st, responses, takes, now, n - 1); }
  }

  /** A retried exchange: the same request, one regeneration more, and a whole deadline from this drain. */
  predicate Retried(cfg: Settings, before: Outstanding, after: Outstanding, now: int) {
    && after.request == before.request && after.expires == now + cfg.DeadlineMs()
    && after.exchange == before.exchange.(regenerations := before.exchange.regenerations + 1)
  }

  /** Whatever a drain leaves outstanding is either untouched or was retried once. */
  lemma {:induction false} OnlyRetriesMoveDeadlines(cfg: Settings, st: State, responses: seq<RawResponse>,
                                                    takes: nat -> bool, now: int, n: nat, token: nat)
    requires n <= |responses| && token in AnswerAll(cfg, st, responses, takes, now, n).exchanges
    ensures token in st.exchanges
    ensures var o := AnswerAll(cfg, st, responses, takes, now, n).exchanges[token];
      o == st.exchanges[token] || Retried(cfg, st.exchanges[token], o, now)
  {
    hide ParseSocialResponse;
    if n > 0 { OnlyRetriesMoveDeadlines(cfg, st, responses, takes, now, n - 1, token); }
  }

  /**
   * Answers are read before the sweep: one that arrived in time is delivered however late the drain runs,
   * provided it is the first for its token, parses for its token and bot, and names a real channel.
   */
  lemma InTimeAnswerIsDelivered(cfg: Settings, st: State, responses: seq<RawResponse>, takes: nat -> bool, now: int,
                                i: nat)
    requires i < |responses| && responses[i].token in st.exchanges
    requires forall j | 0 <= j < i :: responses[j].token != responses[i].token
    requires var raw, o := responses[i], st.exchanges[responses[i].token];
      var parsed := ParseSocialResponse(raw.payload, cfg.bridgeToken, o.exchange.token, o.exchange.bot);
      && raw.receivedAt <= o.expires
      && parsed.Some? && parsed.value.Deliverable? && parsed.value.channel < SOCIAL_CHANNELS
    ensures var raw, o := responses[i], st.exchanges[responses[i].token];
      var parsed := ParseSocialResponse(raw.payload, cfg.bridgeToken, o.exchange.token, o.exchange.bot);
      && Event(raw.token, Delivered(raw, ResultOf(raw.token, parsed.value)))
           in Resolved(cfg, st, responses, takes, now).log
      && raw.token !in Resolved(cfg, st, responses, takes, now).exchanges
  {
    hide ParseSocialResponse, Ascending, EventsFor;
    var raw := responses[i];
    OthersLeaveItAlone(cfg, st, responses, takes, now, i, raw.token);
    var before := AnswerAll(cfg, st, responses, takes, now, i);
    var after := AnswerAll(cfg, st, responses, takes, now, i + 1);
    assert after == Answered(cfg, before, raw, takes(i), now);
    assert after.log[|after.log| - 1].mark.Delivered?;
    EndedStaysEnded(cfg, st, responses, takes, now, i + 1, |responses|, raw.token);
  }

  /** And one that does not parse ends the exchange there and then. */
  lemma UnreadableAnswerIsAbandoned(cfg: Settings, st: State, responses: seq<RawResponse>, takes: nat -> bool,
                                    now: int, i: nat)
    requires i < |responses| && responses[i].token in st.exchanges
    requires forall j | 0 <= j < i :: responses[j].token != responses[i].token
    requires var o := st.exchanges[responses[i].token];
      ParseSocialResponse(responses[i].payload, cfg.bridgeToken, o.exchange.token, o.exchange.bot).None?
    ensures Event(responses[i].token, Abandoned) in Resolved(cfg, st, responses, takes, now).log
    ensures responses[i].token !in Resolved(cfg, st, responses, takes, now).exchanges
  {
    hide ParseSocialResponse, Ascending, EventsFor;
    var raw := responses[i];
    OthersLeaveItAlone(cfg, st, responses, takes, now, i, raw.token);
    var after := AnswerAll(cfg, st, responses, takes, now, i + 1);
    assert after == Answered(cfg, AnswerAll(cfg, st, responses, takes, now, i), raw, takes(i), now);
    assert after.log[|after.log| - 1] == Event(raw.token, Abandoned);
    EndedStaysEnded(cfg, st, responses, takes, now, i + 1, |responses|, raw.token);
  }

  lemma {:induction false} OthersLeaveItAlone(cfg: Settings, st: State, responses: seq<RawResponse>,
                                              takes: nat -> bool, now: int, n: nat, token: nat)
    requires n <= |responses| && token in st.exchanges && forall j | 0 <= j < n :: responses[j].token != token
    ensures var after := AnswerAll(cfg, st, responses, takes, now, n);
      token in after.exchanges && after.exchanges[token] == st.exchanges[token]
  {
    hide Classify, ParseSocialResponse;
    if n > 0 { OthersLeaveItAlone(cfg, st, responses, takes, now, n - 1, token); }
  }

  lemma {:induction false} EndedStaysEnded(cfg: Settings, st: State, responses: seq<RawResponse>, takes: nat -> bool,
                                           now: int, m: nat, n: nat, token: nat)
    requires m <= n <= |responses| && token !in AnswerAll(cfg, st, responses, takes, now, m).exchanges
    ensures token !in AnswerAll(cfg, st, responses, takes, now, n).exchanges
    ensures AnswerAll(cfg, st, responses, takes, now, m).log <= AnswerAll(cfg, st, responses, takes, now, n).log
    decreases n - m
  {
    hide Classify, ParseSocialResponse;
    if m < n { EndedStaysEnded(cfg, st, responses, takes, now, m, n - 1, token); }
  }
}
