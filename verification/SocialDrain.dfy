/** What one drain makes of the answers to a token: exactly when it is delivered, asked again, abandoned, or left. */
module SocialDrain {
  import opened Bytes
  import opened Wrappers
  import opened SocialFrame
  import opened SocialTransport
  import opened SocialTransportTheorems

  /** All that a drain adds to a token's story. */
  ghost predicate DrainTells(cfg: Settings, st: State, responses: seq<RawResponse>, takes: nat -> bool, now: int,
                             token: nat, marks: seq<Mark>) {
    Story(Resolved(cfg, st, responses, takes, now).log, token) == Story(st.log, token) + marks
  }

  /** The configured time to answer, or the coordinator's own if less. */
  function TimeToAnswer(cfg: Settings): int {
    if cfg.configuredDeadlineMs < 30_000 then cfg.configuredDeadlineMs else 30_000
  }

  predicate FirstAnswer(responses: seq<RawResponse>, i: nat) {
    i < |responses| && forall j | 0 <= j < i :: responses[j].token != responses[i].token
  }

  predicate OnlyAnswer(responses: seq<RawResponse>, i: nat) {
    FirstAnswer(responses, i) && forall j | i < j < |responses| :: responses[j].token != responses[i].token
  }

  /** What the payload of an answer parses to, for the exchange it answers. */
  function Says(cfg: Settings, o: Outstanding, raw: RawResponse): Option<SocialResponse> {
    ParseSocialResponse(raw.payload, cfg.bridgeToken, o.exchange.token, o.exchange.bot)
  }

  // ---- What the coordinator is told ----

  predicate CarriesResult(e: Event, token: nat, result: ProviderResult) {
    e.token == token && e.mark.Delivered? && e.mark.result == result
  }

  lemma ReportCarriesTheResult(e: Event, token: nat, result: ProviderResult)
    ensures Completed(token, Deliver, Some(result)) in Report(e) <==> CarriesResult(e, token, result)
    ensures forall c | c in Report(e) :: c.result.Some? <==> c.outcome == Deliver
  {
  }

  /** Exactly the delivered results are reported, and nothing but a delivery carries one. */
  lemma {:induction false} ReportsCarryTheResults(log: seq<Event>, token: nat, result: ProviderResult)
    ensures Completed(token, Deliver, Some(result)) in Reports(log)
      <==> exists e | e in log :: CarriesResult(e, token, result)
    ensures forall c | c in Reports(log) :: c.result.Some? <==> c.outcome == Deliver
  {
    hide Report, CarriesResult;
    if log != [] {
      var front, last := log[..|log| - 1], log[|log| - 1];
      ReportsCarryTheResults(front, token, result);
      ReportCarriesTheResult(last, token, result);
      assert log == front + [last];
      assert forall e :: e in log <==> e in front || e == last;
      assert forall c :: c in Reports(log) <==> c in Reports(front) || c in Report(last);
    }
  }

  // ---- One step at a time ----

  /** Answers to other tokens, and answers to a token that is gone, tell nothing about it. */
  lemma {:induction false} QuietStretch(cfg: Settings, st: State, responses: seq<RawResponse>, takes: nat -> bool,
                                        now: int, m: nat, n: nat, token: nat)
    requires m <= n <= |responses|
    requires token !in AnswerAll(cfg, st, responses, takes, now, m).exchanges
      || forall j | m <= j < n :: responses[j].token != token
    ensures var before, after := AnswerAll(cfg, st, responses, takes, now, m),
                                 AnswerAll(cfg, st, responses, takes, now, n);
      && Story(after.log, token) == Story(before.log, token)
      && (token in after.exchanges <==> token in before.exchanges)
      && (token in before.exchanges ==> after.exchanges[token] == before.exchanges[token])
    decreases n - m
  {
    if m < n {
      QuietStretch(cfg, st, responses, takes, now, m, n - 1, token);
      QuietAnswer(cfg, AnswerAll(cfg, st, responses, takes, now, n - 1), responses[n - 1], takes(n - 1), now, token);
      hide Answered, Story;
    }
  }

  lemma QuietAnswer(cfg: Settings, st: State, raw: RawResponse, taken: bool, now: int, token: nat)
    requires raw.token != token || token !in st.exchanges
    ensures var after := Answered(cfg, st, raw, taken, now);
      && Story(after.log, token) == Story(st.log, token)
      && (token in after.exchanges <==> token in st.exchanges)
      && (token in st.exchanges ==> after.exchanges[token] == st.exchanges[token])
  {
    hide Classify, Story;
    var after := Answered(cfg, st, raw, taken, now);
    if raw.token in st.exchanges {
      if |after.log| == |st.log| + 1 {
        StorySnoc(st.log, after.log[|st.log|], token);
      } else {
        StorySnoc(st.log, after.log[|st.log|], token);
        assert after.log == (st.log + [after.log[|st.log|]]) + [after.log[|st.log| + 1]];
        StorySnoc(st.log + [after.log[|st.log|]], after.log[|st.log| + 1], token);
      }
    }
  }

  /** What one answer to an outstanding token does to it. */
  lemma AnswerTells(cfg: Settings, st: State, raw: RawResponse, taken: bool, now: int)
    requires raw.token in st.exchanges
    ensures var after, o := Answered(cfg, st, raw, taken, now), st.exchanges[raw.token];
      var says, late := Says(cfg, o, raw), raw.receivedAt > o.expires;
      if !late && says.Some? && says.value.Regeneration? && o.exchange.regenerations == 0 && taken then
        && raw.token in after.exchanges
        && after.exchanges[raw.token]
             == Outstanding(o.exchange.(regenerations := 1), o.request, now + TimeToAnswer(cfg))
        && Story(after.log, raw.token)
             == Story(st.log, raw.token) + [Enqueued(o.request, now, now + TimeToAnswer(cfg)), Regenerated]
      else
        && raw.token !in after.exchanges
        && Story(after.log, raw.token)
             == Story(st.log, raw.token)
                + [if !late && says.Some? && says.value.Deliverable? && says.value.channel <= 3
                   then Delivered(raw, ResultOf(raw.token, says.value)) else Abandoned]
  {
    hide ParseSocialResponse, Story, ResultOf;
    var after := Answered(cfg, st, raw, taken, now);
    StorySnoc(st.log, after.log[|st.log|], raw.token);
    if |after.log| == |st.log| + 2 {
      assert after.log == (st.log + [after.log[|st.log|]]) + [after.log[|st.log| + 1]];
      StorySnoc(st.log + [after.log[|st.log|]], after.log[|st.log| + 1], raw.token);
    }
  }

  lemma SweepTells(st: State, now: int, token: nat)
    ensures var after := Sweep(st, now);
      if token in st.exchanges && st.exchanges[token].expires <= now then
        token !in after.exchanges && Story(after.log, token) == Story(st.log, token) + [Abandoned]
      else
        && Story(after.log, token) == Story(st.log, token)
        && (token in after.exchanges <==> token in st.exchanges)
        && (token in st.exchanges ==> after.exchanges[token] == st.exchanges[token])
  {
    hide Ascending, EventsFor, Story;
    var events := EventsFor(Ascending(Due(st, now)), Abandoned);
    StoryConcat(st.log, events, token);
    StoryOfMarked(Due(st, now), Abandoned, token);
  }

  // ---- A whole drain ----

  /** The answers before the first to a token leave it as it was; that one decides. */
  lemma UpToTheFirst(cfg: Settings, st: State, responses: seq<RawResponse>, takes: nat -> bool, now: int, i: nat)
    requires FirstAnswer(responses, i) && responses[i].token in st.exchanges
    ensures var token := responses[i].token;
      var before, after := AnswerAll(cfg, st, responses, takes, now, i),
                           AnswerAll(cfg, st, responses, takes, now, i + 1);
      && after == Answered(cfg, before, responses[i], takes(i), now)
      && token in before.exchanges && before.exchanges[token] == st.exchanges[token]
      && Story(before.log, token) == Story(st.log, token)
  {
    hide Answered, Story;
    QuietStretch(cfg, st, responses, takes, now, 0, i, responses[i].token);
  }

  /**
   * The first answer to a token ends it, unless it asks for a retry that is still to be had and that the bridge takes:
   * delivered when it came in time, parses as an answer, and names a real channel; abandoned when it is late, does not
   * parse, names no real channel, or asks for a retry that is spent or refused. Whatever else arrives is not looked at.
   */
  lemma FirstAnswerEndsIt(cfg: Settings, st: State, responses: seq<RawResponse>, takes: nat -> bool, now: int, i: nat)
    requires FirstAnswer(responses, i) && responses[i].token in st.exchanges
    requires var raw, o := responses[i], st.exchanges[responses[i].token];
      var says := Says(cfg, o, raw);
      raw.receivedAt > o.expires || says.None? || says.value.Deliverable? || o.exchange.regenerations != 0 || !takes(i)
    ensures var raw, o := responses[i], st.exchanges[responses[i].token];
      var says := Says(cfg, o, raw);
      && raw.token !in Resolved(cfg, st, responses, takes, now).exchanges
      && DrainTells(cfg, st, responses, takes, now, raw.token,
                    if raw.receivedAt <= o.expires && says.Some? && says.value.Deliverable? && says.value.channel <= 3
                    then [Delivered(raw, ResultOf(raw.token, says.value))] else [Abandoned])
  {
    hide Answered, Story, Says, Sweep, ResultOf, AnswerAll;
    var raw := responses[i];
    UpToTheFirst(cfg, st, responses, takes, now, i);
    AnswerTells(cfg, AnswerAll(cfg, st, responses, takes, now, i), raw, takes(i), now);
    QuietStretch(cfg, st, responses, takes, now, i + 1, |responses|, raw.token);
    SweepTells(AnswerAll(cfg, st, responses, takes, now, |responses|), now, raw.token);
  }

  /**
   * An answer in time that asks for a retry gets it, once: the same request goes out again with the whole time to
   * answer from this drain, and the exchange stays outstanding with its one retry spent. It is abandoned if and only if
   * the retry was spent before or the bridge does not take it.
   */
  lemma RegenerationIsCarriedOutIff(cfg: Settings, st: State, responses: seq<RawResponse>, takes: nat -> bool,
                                    now: int, i: nat)
    requires OnlyAnswer(responses, i) && responses[i].token in st.exchanges && cfg.configuredDeadlineMs > 0
    requires var raw, o := responses[i], st.exchanges[responses[i].token];
      raw.receivedAt <= o.expires && Says(cfg, o, raw).Some? && Says(cfg, o, raw).value.Regeneration?
    ensures var token, o := responses[i].token, st.exchanges[responses[i].token];
      var after, again := Resolved(cfg, st, responses, takes, now), now + TimeToAnswer(cfg);
      && (token in after.exchanges <==> o.exchange.regenerations == 0 && takes(i))
      && (token in after.exchanges ==>
            && after.exchanges[token] == Outstanding(o.exchange.(regenerations := 1), o.request, again)
            && DrainTells(cfg, st, responses, takes, now, token, [Enqueued(o.request, now, again), Regenerated]))
      && (token !in after.exchanges ==> DrainTells(cfg, st, responses, takes, now, token, [Abandoned]))
  {
    hide Resolved, Says, Story, TimeToAnswer;
    if st.exchanges[responses[i].token].exchange.regenerations == 0 && takes(i) {
      RetryIsKept(cfg, st, responses, takes, now, i);
    } else {
      FirstAnswerEndsIt(cfg, st, responses, takes, now, i);
    }
  }

  lemma RetryIsKept(cfg: Settings, st: State, responses: seq<RawResponse>, takes: nat -> bool, now: int, i: nat)
    requires OnlyAnswer(responses, i) && responses[i].token in st.exchanges && cfg.configuredDeadlineMs > 0
    requires var raw, o := responses[i], st.exchanges[responses[i].token];
      raw.receivedAt <= o.expires && Says(cfg, o, raw).Some? && Says(cfg, o, raw).value.Regeneration?
    requires st.exchanges[responses[i].token].exchange.regenerations == 0 && takes(i)
    ensures var token, o := responses[i].token, st.exchanges[responses[i].token];
      var after, again := Resolved(cfg, st, responses, takes, now), now + TimeToAnswer(cfg);
      && token in after.exchanges
      && after.exchanges[token] == Outstanding(o.exchange.(regenerations := 1), o.request, again)
      && DrainTells(cfg, st, responses, takes, now, token, [Enqueued(o.request, now, again), Regenerated])
  {
    hide Answered, Story, Says, Sweep, AnswerAll;
    UpToTheFirst(cfg, st, responses, takes, now, i);
    AnswerTells(cfg, AnswerAll(cfg, st, responses, takes, now, i), responses[i], takes(i), now);
    QuietStretch(cfg, st, responses, takes, now, i + 1, |responses|, responses[i].token);
    SweepTells(AnswerAll(cfg, st, responses, takes, now, |responses|), now, responses[i].token);
  }

  /** And a token nobody answered is left exactly as it was until its deadline, and abandoned from then on. */
  lemma UnansweredWaitsUntilItsDeadline(cfg: Settings, st: State, responses: seq<RawResponse>, takes: nat -> bool,
                                        now: int, token: nat)
    requires token in st.exchanges && forall j | 0 <= j < |responses| :: responses[j].token != token
    ensures var after := Resolved(cfg, st, responses, takes, now);
      && (token in after.exchanges <==> now < st.exchanges[token].expires)
      && (token in after.exchanges ==>
            after.exchanges[token] == st.exchanges[token] && DrainTells(cfg, st, responses, takes, now, token, []))
      && (token !in after.exchanges ==> DrainTells(cfg, st, responses, takes, now, token, [Abandoned]))
  {
    hide Answered, Story, Sweep;
    QuietStretch(cfg, st, responses, takes, now, 0, |responses|, token);
    SweepTells(AnswerAll(cfg, st, responses, takes, now, |responses|), now, token);
  }
}
