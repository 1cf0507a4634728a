/** The transport as the world thread runs it. */
module SocialTransportClass {
  import opened Bytes
  import opened Wrappers
  import opened SocialFrame
  import opened SocialTransport

  class Transport {
    var exchanges: map<nat, Outstanding>
    const settings: Settings
    ghost var log: seq<Event>

    ghost function Snapshot(): State
      reads this
    {
      State(exchanges, log)
    }

    constructor (settings: Settings)
      ensures this.settings == settings && Snapshot() == State(map[], [])
    {
      this.settings := settings;
      exchanges := map[];
      log := [];
    }

    /** False on every refusal, and then nothing changed. */
    method SubmitAt(request: Request, now: int, usable: bool, taken: bool) returns (ok: bool)
      modifies this
      ensures ok <==> usable && request.token !in old(exchanges) && |old(exchanges)| < 512 && taken
      ensures Snapshot() == old(Submitted(settings, Snapshot(), request, now, usable, taken))
    {
      if !usable { return false; }
      if request.token in exchanges { return false; }
      if |exchanges| >= MAX_OUTSTANDING_SOCIAL_REQUESTS { return false; }
      var expires := now + settings.DeadlineMs();
      if !taken { return false; }
      exchanges := exchanges[request.token := Outstanding(Exchange(request.token, request.bot, 0), request, expires)];
      log := log + [Event(request.token, Enqueued(request, now, expires))];
      return true;
    }

    /**
     * Delivered only when the payload parses for this exchange's own token and bot; asked again only when it says so
     * and the one regeneration is unspent, which spends it; abandoned otherwise. Only a retry changes the exchange.
     */
    method ClassifyPayload(e: Exchange, payload: bytes)
      returns (outcome: Outcome, exchange: Exchange, response: Option<SocialResponse>)
      ensures var parsed := ParseSocialResponse(payload, settings.bridgeToken, e.token, e.bot);
        && (outcome.Deliver? <==> parsed.Some? && parsed.value.Deliverable?)
        && (outcome.Regenerate? <==> parsed.Some? && parsed.value.Regeneration? && e.regenerations == 0)
        && response == (if outcome.Deliver? then parsed else None)
        && exchange == (if outcome.Regenerate? then e.(regenerations := 1) else e)
    {
      hide ParseSocialResponse;
      var parsed := ParseSocialResponsePayload(payload, settings.bridgeToken, e.token, e.bot);
      if parsed.None? { return Abandon, e, None; }
      if parsed.value.Regeneration? {
        if e.regenerations >= MAX_REGENERATIONS_PER_REQUEST { return Abandon, e, None; }
        return Regenerate, e.(regenerations := e.regenerations + 1), None;
      }
      return Deliver, e, parsed;
    }

    /** Erases the exchange and reports its end. */
    method Close(token: nat, ghost mark: Mark, report: Completed) returns (completed: seq<Completed>)
      requires Report(Event(token, mark)) == [report]
      modifies this
      ensures Snapshot() == old(Finish(Snapshot(), token, mark))
      ensures old(log) <= log && completed == [report] && completed == Reports(log[|old(log)|..])
    {
      hide Reports, Report;
      exchanges := exchanges - {token};
      OneReported(log, Event(token, mark));
      log := log + [Event(token, mark)];
      completed := [report];
    }

    method AnswerOne(raw: RawResponse, taken: bool, now: int) returns (completed: seq<Completed>)
      modifies this
      ensures Snapshot() == Answered(settings, old(Snapshot()), raw, taken, now)
      ensures old(log) <= log && completed == Reports(log[|old(log)|..])
    {
      hide Reports, ParseSocialResponse;
      if raw.token !in exchanges {
        NothingReported(log);
        return [];
      }
      var outstanding := exchanges[raw.token];
      if raw.receivedAt > outstanding.expires {
        completed := Close(raw.token, Abandoned, Completed(raw.token, Abandon, None));
        return;
      }
      var outcome, exchange, response := ClassifyPayload(outstanding.exchange, raw.payload);
      assert (outcome, exchange, response) == Classify(outstanding.exchange, raw.payload, settings.bridgeToken);
      if outcome.Regenerate? {
        var retryExpires := now + settings.DeadlineMs();
        if taken {
          exchanges := exchanges[raw.token := Outstanding(exchange, outstanding.request, retryExpires)];
          ghost var again := Event(raw.token, Enqueued(outstanding.request, now, retryExpires));
          log := log + [again, Event(raw.token, Regenerated)];
          RetryReported(old(log), again, Event(raw.token, Regenerated));
          return [Completed(raw.token, Regenerate, None)];
        }
        completed := Close(raw.token, Abandoned, Completed(raw.token, Abandon, None));
        return;
      }
      if !outcome.Deliver? || response.value.channel >= SOCIAL_CHANNELS {
        completed := Close(raw.token, Abandoned, Completed(raw.token, Abandon, None));
        return;
      }
      var r := response.value;
      var kind := if r.emote != 0 then Emote else if r.message != [] then Message else Silence;
      var result := ProviderResult(raw.token, kind, r.emote, if kind.Message? then r.message else [], r.channel,
                                   r.metadata, r.proposal);
      completed := Close(raw.token, Delivered(raw, result), Completed(raw.token, Deliver, Some(result)));
    }

    method Resolve(responses: seq<RawResponse>, takes: nat -> bool, now: int) returns (completed: seq<Completed>)
      modifies this
      ensures Snapshot() == old(Resolved(settings, Snapshot(), responses, takes, now))
      ensures old(log) <= log && completed == Reports(log[|old(log)|..])
    {
      completed := [];
      assert log[|log|..] == [];
      for index := 0 to |responses|
        invariant Snapshot() == AnswerAll(settings, old(Snapshot()), responses, takes, now, index)
        invariant old(log) <= log && completed == Reports(log[|old(log)|..])
      {
        ghost var before := log;
        var more := AnswerOne(responses[index], takes(index), now);
        JoinReports(old(log), before, log);
        completed := completed + more;
      }
      ghost var before := log;
      var swept := SweepOverdue(now);
      JoinReports(old(log), before, log);
      completed := completed + swept;
    }

    /** Visits the map in key order, erasing as it goes. */
    method SweepOverdue(now: int) returns (completed: seq<Completed>)
      modifies this
      ensures Snapshot() == old(Sweep(Snapshot(), now))
      ensures old(log) <= log && completed == Reports(log[|old(log)|..])
    {
      hide Ascending, Reports, EventsFor, Report, Below;
      completed := [];
      ghost var due, swept: set<nat> := Due(Snapshot(), now), {};
      var remaining := exchanges.Keys;
      NothingSwept(log);
      NothingBelow(remaining);
      while remaining != {}
        invariant remaining <= old(exchanges).Keys && swept <= due
        invariant forall t | t in due :: t in swept || t in remaining
        invariant Below(swept, remaining)
        invariant exchanges == old(exchanges) - swept
        invariant log == old(log) + EventsFor(Ascending(swept), Abandoned)
        invariant completed == Reports(log[|old(log)|..])
        decreases |remaining|
      {
        var token := Least(remaining);
        LeastStaysBelow(swept, remaining, token);
        remaining := remaining - {token};
        if exchanges[token].expires > now { continue; }
        SweptOneMore(old(log), swept, token);
        swept := swept + {token};
        completed := completed + [Completed(token, Abandon, None)];
        exchanges := exchanges - {token};
        log := log + [Event(token, Abandoned)];
      }
      assert swept == due;
    }

    method Clear()
      modifies this
      ensures Snapshot() == old(ClearedState(Snapshot()))
    {
      log := log + EventsFor(Ascending(exchanges.Keys), Dropped);
      exchanges := map[];
    }
  }

  lemma NothingReported(log: seq<Event>)
    ensures Reports(log[|log|..]) == []
  {
  }

  lemma OneReported(log: seq<Event>, e: Event)
    ensures Reports((log + [e])[|log|..]) == Report(e)
  {
    assert (log + [e])[|log|..] == [] + [e];
    ReportsSnoc([], e);
  }

  lemma RetryReported(log: seq<Event>, again: Event, reported: Event)
    requires again.mark.Enqueued?
    ensures Reports((log + [again, reported])[|log|..]) == Report(reported)
  {
    assert (log + [again, reported])[|log|..] == [again] + [reported];
    ReportsSnoc([again], reported);
    assert [again] == [] + [again];
    ReportsSnoc([], again);
  }

  ghost predicate Below(visited: set<nat>, remaining: set<nat>) {
    forall x, y | x in visited && y in remaining :: x < y
  }

  lemma NothingBelow(remaining: set<nat>)
    ensures Below({}, remaining)
  {
  }

  lemma LeastStaysBelow(visited: set<nat>, remaining: set<nat>, least: nat)
    requires Below(visited, remaining) && least in remaining && forall t | t in remaining :: least <= t
    ensures forall x | x in visited :: x < least
    ensures least !in visited
    ensures Below(visited, remaining - {least}) && Below(visited + {least}, remaining - {least})
  {
  }

  lemma NothingSwept(log: seq<Event>)
    ensures log + EventsFor(Ascending({}), Abandoned) == log && Reports(log[|log|..]) == []
  {
  }

  /** One more abandoned token, greater than all before it, extends both the log and the reports. */
  lemma SweptOneMore(start: seq<Event>, swept: set<nat>, token: nat)
    requires forall x | x in swept :: x < token
    ensures var more := start + EventsFor(Ascending(swept + {token}), Abandoned);
      var log := start + EventsFor(Ascending(swept), Abandoned);
      && more == log + [Event(token, Abandoned)]
      && Reports(more[|start|..]) == Reports(log[|start|..]) + [Completed(token, Abandon, None)]
  {
    hide Ascending, Greatest, Reports;
    var events := EventsFor(Ascending(swept), Abandoned);
    AscendingGrows(swept, token);
    var more := EventsFor(Ascending(swept + {token}), Abandoned);
    assert more == events + [Event(token, Abandoned)];
    assert start + more == (start + events) + [Event(token, Abandoned)];
    assert (start + more)[|start|..] == more && (start + events)[|start|..] == events;
    ReportsSnoc(events, Event(token, Abandoned));
  }

  lemma JoinReports(start: seq<Event>, middle: seq<Event>, end: seq<Event>)
    requires start <= middle <= end
    ensures Reports(end[|start|..]) == Reports(middle[|start|..]) + Reports(end[|middle|..])
  {
    assert end[|start|..] == middle[|start|..] + end[|middle|..];
    ReportsConcat(middle[|start|..], end[|middle|..]);
  }

  lemma {:induction false} LeastExists(s: set<nat>)
    requires s != {}
    ensures exists m :: IsLeast(m, s)
    decreases s
  {
    var x :| x in s;
    var rest := s - {x};
    assert forall t | t in s :: t == x || t in rest;
    if rest == {} {
      assert IsLeast(x, s);
    } else {
      LeastExists(rest);
      var m :| IsLeast(m, rest);
      assert IsLeast(if x < m then x else m, s);
    }
  }

  predicate IsLeast(m: nat, s: set<nat>) { m in s && forall t | t in s :: m <= t }

  /** Where the walk of a key-ordered map goes next. */
  method Least(s: set<nat>) returns (least: nat)
    requires s != {}
    ensures least in s && forall t | t in s :: least <= t
  {
    LeastExists(s);
    least :| IsLeast(least, s);
  }

  lemma AscendingGrows(s: set<nat>, top: nat)
    requires forall x | x in s :: x < top
    ensures Ascending(s + {top}) == Ascending(s) + [top]
  {
    assert Greatest(s + {top}) == top;
    assert (s + {top}) - {top} == s;
  }
}
