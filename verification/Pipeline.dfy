/**
 * One request through the sidecar: count, reserve, generate, then settle, release, or leave the
 * reservation for expiry. The deadline, a database failure, or a crash may end it at any awaited
 * step, and other sidecars run transactions on the same ledger in between.
 */
module Pipeline {
  import opened Wrappers
  import opened Budget
  import opened Ledger
  import opened LedgerSafety
  import opened LedgerTheorems
  import opened BudgetLedgerClass

  datatype Request =
    | Chat(ambient: bool, career: bool)
    | Social(lane: Priority)
    | Memory
    | Biography
    | Assessment

  function PriorityFor(request: Request): Priority {
    match request
    case Chat(ambient, career) => if ambient || career then Background else ImmediateHuman
    case Social(lane) => lane
    case Memory => Background
    case Biography => Background
    case Assessment => ImmediateHuman
  }

  function KindFor(request: Request): RequestKind {
    match request
    case Chat(_, career) => if career then CareerGeneration else ChatResponse
    case Social(_) => ChatResponse
    case Memory => MemoryExtraction
    case Biography => BackstoryGeneration
    case Assessment => ModerationClassification
  }

  datatype Usage = Usage(input: int, output: int, cacheCreation: int, cacheRead: int) {
    predicate Priceable() { input >= 0 && output >= 0 && cacheCreation >= 0 && cacheRead >= 0 }
    function TotalInput(): int { input + cacheCreation + cacheRead }
  }

  datatype Prices = Prices(input: Option<real>, output: Option<real>)

  /** None stands for the refusal to price: a negative component or an unusable price. */
  function ActualCost(usage: Usage, prices: Prices): Option<int> {
    if !usage.Priceable() then None else TokenCost(usage.TotalInput(), usage.output, prices.input, prices.output)
  }

  // ---- What the world does to one request ----

  datatype Count = CountFailed | Counted(tokens: int) | CutWhileCounting

  /** Refusals prove nothing was generated; invalid output may carry the usage it was billed for. */
  datatype Generation =
    | Answered(usage: Usage)
    | RefusedBeforeGenerating
    | InvalidOutput(reported: Option<Usage>)
    | NothingKnown
    | CutWhileGenerating

  /** An awaited database call returns, or the request ends before its commit, or after it. */
  datatype Fate = Returns | EndsBefore | EndsAfter

  datatype Script = Script(
    prepared: bool,  // the ambient slot, profile write, and history read all went through
    count: Count,
    reserveAt: Time, othersBeforeReserve: seq<Txn>, reserveFate: Fate,
    generation: Generation,
    settleAt: Time, othersBeforeSettle: seq<Txn>, settleFate: Fate,
    metadataFits: bool,  // the call metadata is representable on the wire
    recorded: bool)      // the career decision or the conversation turns were written

  datatype Spending =
    | NothingReserved
    | Orphaned(reservation: Reservation)
    | Failed(reservation: Reservation, rejected: bool)  // rejected: billed output was refused, and accounted for
    | Settled(reservation: Reservation, usage: Usage, receipt: Receipt)

  datatype Frame = Silence | Regenerate | Reply | SocialReply(cost: nat)

  /** Start-up configuration, with the ledger's policy. */
  datatype Config = Config(
    policy: Policy, prices: Prices, model: string, maxInputTokens: int, outputLimit: Request -> int,
    generationAllowed: bool, ambientAllowed: bool)
  {
    function MaxCost(request: Request, tokens: int): Option<int> {
      TokenCost(tokens, outputLimit(request), prices.input, prices.output)
    }

    predicate Priceable(usage: Usage) { ActualCost(usage, prices).Some? }

    function Cost(usage: Usage): int
      requires Priceable(usage)
    {
      ActualCost(usage, prices).value
    }

    predicate CountFits(script: Script) { script.count.Counted? && script.count.tokens <= maxInputTokens }

    predicate Open(request: Request, script: Script) {
      && generationAllowed && (request.Chat? && request.ambient ==> ambientAllowed)
      && (request.Chat? ==> script.prepared)
    }
  }

  // ---- One request, as a function of the ledger it meets ----

  /** Another caller's transaction; it cannot name a reservation that is not its own. */
  function AfterOther(policy: Policy, db: Db, txn: Txn, own: Option<nat>): Db {
    if txn.ReserveTxn? || (Issued(db, txn.reservation) && own != Some(txn.reservation.id)) then Apply(policy, db, txn)
    else db
  }

  function AfterOthers(policy: Policy, db: Db, txns: seq<Txn>, own: Option<nat>): Db {
    if txns == [] then db
    else AfterOther(policy, AfterOthers(policy, db, txns[..|txns| - 1], own), txns[|txns| - 1], own)
  }

  /** The ledger this request's reservation is decided on: others ran first, if the request got that far. */
  function Found(cfg: Config, db: Db, script: Script): Db {
    if cfg.CountFits(script) then AfterOthers(cfg.policy, db, script.othersBeforeReserve, None) else db
  }

  function Reserving(cfg: Config, db: Db, request: Request, script: Script): (Db, ReserveResult)
    requires cfg.CountFits(script)
  {
    Reserve(cfg.policy, Found(cfg, db, script), KindFor(request), cfg.model, cfg.MaxCost(request, script.count.tokens),
            PriorityFor(request), script.reserveAt)
  }

  function AnswerAccounted(cfg: Config, db: Db, r: Reservation, usage: Usage, script: Script): (Db, Spending) {
    if !cfg.Priceable(usage) || script.settleFate.EndsBefore? then (db, Failed(r, false))
    else
      var (after, receipt) := Settle(db, r, cfg.Cost(usage), script.settleAt);
      (after, if !receipt.completed || script.settleFate.EndsAfter? then Failed(r, false)
        else Settled(r, usage, receipt))
  }

  /** The ledger after a failed generation was accounted for, and whether the request lived to say so. */
  function FailureAccounted(cfg: Config, db: Db, r: Reservation, script: Script): (Db, bool) {
    match script.generation
    case RefusedBeforeGenerating =>
      (if script.settleFate.EndsBefore? then db else Release(db, r).0, script.settleFate.Returns?)
    case InvalidOutput(Some(usage)) =>
      if !cfg.Priceable(usage) then (db, true)
      else
        (if script.settleFate.EndsBefore? then db else Settle(db, r, cfg.Cost(usage), script.settleAt).0,
         script.settleFate.Returns?)
    case _ => (db, true)
  }

  function Generated(cfg: Config, db: Db, r: Reservation, script: Script): (Db, Spending) {
    if script.generation.CutWhileGenerating? then (db, Failed(r, false))
    else
      var left := AfterOthers(cfg.policy, db, script.othersBeforeSettle, Some(r.id));
      if script.generation.Answered? then AnswerAccounted(cfg, left, r, script.generation.usage, script)
      else
        var (after, accounted) := FailureAccounted(cfg, left, r, script);
        (after, Failed(r, accounted && script.generation.InvalidOutput?))
  }

  function Spent(cfg: Config, db: Db, request: Request, script: Script): (Db, Spending) {
    if !cfg.CountFits(script) then (db, NothingReserved)
    else if script.reserveFate.EndsBefore? then (Found(cfg, db, script), NothingReserved)
    else
      var (reserved, result) := Reserving(cfg, db, request, script);
      if !result.Granted? then (reserved, NothingReserved)
      else if script.reserveFate.EndsAfter? then (reserved, Orphaned(result.reservation))
      else Generated(cfg, reserved, result.reservation, script)
  }

  function FrameFor(request: Request, script: Script, spending: Spending): Frame {
    match spending
    case NothingReserved => Silence
    case Orphaned(_) => Silence
    case Failed(_, rejected) => if request.Social? && rejected then Regenerate else Silence
    case Settled(_, _, receipt) =>
      if request.Social? then
        if receipt.breach || receipt.saturated || receipt.stored.None? || !script.metadataFits then Silence
        else SocialReply(receipt.stored.value)
      else if request.Chat? && !script.recorded then Silence
      else Reply
  }

  function Processed(cfg: Config, db: Db, request: Request, script: Script): (Db, Frame, Spending) {
    if !cfg.Open(request, script) then (db, Silence, NothingReserved)
    else
      var (after, spending) := Spent(cfg, db, request, script);
      (after, FrameFor(request, script, spending), spending)
  }

  /** The generations a request makes: one, behind its own reservation, or none. */
  function CallsOf(spending: Spending): seq<Reservation> {
    if spending.Failed? || spending.Settled? then [spending.reservation] else []
  }

  // ---- What other callers can do ----

  /** What other callers can do to the ledger, and to a reservation that is not theirs: at most expire it. */
  ghost predicate OnlyOthers(before: Db, after: Db, own: Option<nat>) {
    && Evolves(before, after)
    && (own.Some? && own.value < |before.rows| ==>
          var r, r' := before.rows[own.value], after.rows[own.value];
          r' == r || (r.state.Reserved? && r' == r.(state := Expired)))
  }

  lemma OnlyOthersTransitive(a: Db, b: Db, c: Db, own: Option<nat>)
    requires OnlyOthers(a, b, own) && OnlyOthers(b, c, own)
    ensures OnlyOthers(a, c, own)
  {
  }

  lemma ForeignTransaction(policy: Policy, db: Db, txn: Txn, own: Option<nat>)
    requires Enabled(db, txn)
    requires txn.ReserveTxn? || own != Some(txn.reservation.id)
    ensures OnlyOthers(db, Apply(policy, db, txn), own)
  {
    ApplyEvolves(policy, db, txn);
  }

  lemma OnlyOthersReflexive(db: Db, own: Option<nat>)
    ensures OnlyOthers(db, db, own)
  {
  }

  lemma OtherLeavesOwn(policy: Policy, db: Db, txn: Txn, own: Option<nat>)
    ensures OnlyOthers(db, AfterOther(policy, db, txn, own), own)
  {
    hide Apply, OnlyOthers;
    if txn.ReserveTxn? || (Issued(db, txn.reservation) && own != Some(txn.reservation.id)) {
      ForeignTransaction(policy, db, txn, own);
    } else {
      OnlyOthersReflexive(db, own);
    }
  }

  lemma {:induction false} OthersLeaveOwn(policy: Policy, db: Db, txns: seq<Txn>, own: Option<nat>)
    ensures OnlyOthers(db, AfterOthers(policy, db, txns, own), own)
  {
    hide OnlyOthers, AfterOther;
    OnlyOthersReflexive(db, own);
    if txns != [] {
      var front, last := txns[..|txns| - 1], txns[|txns| - 1];
      OthersLeaveOwn(policy, db, front, own);
      OtherLeavesOwn(policy, AfterOthers(policy, db, front, own), last, own);
      OnlyOthersTransitive(db, AfterOthers(policy, db, front, own), AfterOthers(policy, db, txns, own), own);
    }
  }

  // ---- What a request leaves behind ----

  /** A sweep of expired rows is all that is left of a request that reserved nothing. */
  ghost predicate OnlySwept(before: Db, after: Db) {
    && |after.rows| == |before.rows|
    && (forall i | 0 <= i < |before.rows| :: after.rows[i] == before.rows[i]
          || (before.rows[i].state.Reserved? && after.rows[i] == before.rows[i].(state := Expired)))
    && (forall d :: SpentOn(after, d) == SpentOn(before, d)) && after.circuit == before.circuit
  }

  lemma ReserveOnlySweepsOrAppends(policy: Policy, db: Db, kind: RequestKind, model: string, maxCost: Option<int>,
                                   lane: Priority, now: Time)
    ensures var (after, result) := Reserve(policy, db, kind, model, maxCost, lane, now);
      if !result.Granted? then OnlySwept(db, after)
      else
        && ModelNameFits(model) && maxCost.Some? && result.reservation.id == |db.rows| == |after.rows| - 1
        && Issued(after, result.reservation)
        && (0 <= maxCost.value ==> result.reservation.maxCost == QuantizeStorable(maxCost.value))
        && var row := after.rows[|db.rows|];
           && row.state.Reserved? && row.kind == kind && row.lane == lane && row.model == model
           && row.expiresAt == now + 600_000_000
  {
    hide Sum, ReserveFloor;
  }

  /** Nothing reserved means nothing of this request is in the ledger: every row there is somebody else's. */
  lemma NothingReservedLeavesNothing(cfg: Config, db: Db, request: Request, script: Script)
    requires Spent(cfg, db, request, script).1.NothingReserved?
    ensures OnlySwept(Found(cfg, db, script), Spent(cfg, db, request, script).0)
  {
    hide AfterOthers, Reserve, QuantizeStorable;
    var found := Found(cfg, db, script);
    if cfg.CountFits(script) {
      ReserveOnlySweepsOrAppends(cfg.policy, found, KindFor(request), cfg.model,
                                 cfg.MaxCost(request, script.count.tokens), PriorityFor(request), script.reserveAt);
    }
  }

  predicate Generates(cfg: Config, db: Db, request: Request, script: Script) {
    && cfg.CountFits(script) && script.reserveFate.Returns? && Reserving(cfg, db, request, script).1.Granted?
  }

  /** The ledger the generation's outcome is accounted on. */
  function Left(cfg: Config, db: Db, request: Request, script: Script): Db
    requires Generates(cfg, db, request, script)
  {
    var (reserved, result) := Reserving(cfg, db, request, script);
    if script.generation.CutWhileGenerating? then reserved
    else AfterOthers(cfg.policy, reserved, script.othersBeforeSettle, Some(result.reservation.id))
  }

  /** The request's own row, at the time its outcome is accounted. */
  function HeldRow(cfg: Config, db: Db, request: Request, script: Script): Row
    requires Generates(cfg, db, request, script)
  {
    OwnRowIsLeft(cfg, db, request, script);
    Left(cfg, db, request, script).rows[|Found(cfg, db, script).rows|]
  }

  /** AtItsPrice at the request's limits, on its lane, of its kind. */
  predicate AtItsPrice(cfg: Config, row: Row, request: Request, script: Script) {
    && script.count.Counted? && cfg.MaxCost(request, script.count.tokens).Some?
    && row.maxCost == QuantizeStorable(cfg.MaxCost(request, script.count.tokens).value)
    && row.kind == KindFor(request) && row.lane == PriorityFor(request) && row.model == cfg.model
  }

  lemma PriceIsNatural(cfg: Config, request: Request, tokens: int)
    ensures cfg.MaxCost(request, tokens).Some? ==> 0 <= cfg.MaxCost(request, tokens).value
  {
    hide PerMillionInNano, Budget.Priced;
    if cfg.MaxCost(request, tokens).Some? {
      TokenCostMonotone(tokens, cfg.outputLimit(request), tokens, cfg.outputLimit(request), cfg.prices.input,
                        cfg.prices.output);
    }
  }

  /** A granted reservation is one new row, its own, which nobody else can do more to than let it expire. */
  lemma OwnRowIsLeft(cfg: Config, db: Db, request: Request, script: Script)
    requires Generates(cfg, db, request, script)
    ensures var r := Reserving(cfg, db, request, script).1.reservation;
      var left := Left(cfg, db, request, script);
      && r.id == |Found(cfg, db, script).rows| && Issued(left, r)
      && AtItsPrice(cfg, left.rows[r.id], request, script)
      && (left.rows[r.id].state.Reserved? || left.rows[r.id].state.Expired?)
  {
    hide AfterOthers, Reserve, QuantizeStorable, TokenCost;
    var (reserved, result) := Reserving(cfg, db, request, script);
    PriceIsNatural(cfg, request, script.count.tokens);
    ReserveOnlySweepsOrAppends(cfg.policy, Found(cfg, db, script), KindFor(request), cfg.model,
                               cfg.MaxCost(request, script.count.tokens), PriorityFor(request), script.reserveAt);
    OthersLeaveOwn(cfg.policy, reserved, script.othersBeforeSettle, Some(result.reservation.id));
  }

  /** Every state a reservation can be left in, and what each one is evidence of. */
  ghost predicate Accounted(cfg: Config, row: Row, script: Script) {
    match row.state
    case Reserved => true
    case Expired => true
    case Released => script.generation.RefusedBeforeGenerating?
    case Completed(cost, at) =>
      exists usage :: Reported(script.generation, usage) && cfg.Priceable(usage)
        && cost == StorableActualCost(cfg.Cost(usage)) && at == script.settleAt
  }

  ghost predicate Reported(generation: Generation, usage: Usage) {
    generation == Answered(usage) || generation == InvalidOutput(Some(usage))
  }

  /** What a row still held at accounting time must become: released, settled as reported, or left for expiry. */
  ghost predicate AsOwed(cfg: Config, row: Row, script: Script) {
    match script.generation
    case RefusedBeforeGenerating =>
      if script.settleFate.EndsBefore? then row.state.Reserved? else row.state.Released?
    case Answered(usage) => SettledAsReported(cfg, row, usage, script)
    case InvalidOutput(Some(usage)) => SettledAsReported(cfg, row, usage, script)
    case _ => row.state.Reserved?
  }

  ghost predicate SettledAsReported(cfg: Config, row: Row, usage: Usage, script: Script) {
    if !cfg.Priceable(usage) || script.settleFate.EndsBefore? then row.state.Reserved?
    else row.state == Completed(StorableActualCost(cfg.Cost(usage)), script.settleAt)
  }

  /** The own row after accounting: untouched when it had expired, otherwise as owed; no other row changes. */
  lemma AccountingSettlesWhatIsOwed(cfg: Config, db: Db, r: Reservation, script: Script)
    requires Issued(db, r) && (db.rows[r.id].state.Reserved? || db.rows[r.id].state.Expired?)
    requires !script.generation.CutWhileGenerating?
    ensures var after :=
        if script.generation.Answered? then AnswerAccounted(cfg, db, r, script.generation.usage, script).0
        else FailureAccounted(cfg, db, r, script).0;
      && |after.rows| == |db.rows| && after.rows[r.id] == db.rows[r.id].(state := after.rows[r.id].state)
      && (db.rows[r.id].state.Expired? ==> after.rows[r.id] == db.rows[r.id])
      && (db.rows[r.id].state.Reserved? ==> AsOwed(cfg, after.rows[r.id], script))
      && (forall i | 0 <= i < |db.rows| && i != r.id :: after.rows[i] == db.rows[i])
  {
    hide Sum, StorableActualCost, TokenCost, CircuitShouldOpen;
  }

  lemma AsOwedIsAccounted(cfg: Config, row: Row, script: Script)
    requires AsOwed(cfg, row, script)
    ensures Accounted(cfg, row, script)
  {
    hide StorableActualCost, ActualCost;
    if script.generation.Answered? { assert Reported(script.generation, script.generation.usage); }
    if script.generation.InvalidOutput? && script.generation.reported.Some? {
      assert Reported(script.generation, script.generation.reported.value);
    }
  }

  /**
   * Every path: a reservation ends completed at the reported cost, released after a proven refusal, or left to expire,
   * and exactly as owed when it was still held at accounting time.
   */
  lemma EveryReservationIsAccounted(cfg: Config, db: Db, request: Request, script: Script)
    requires !Spent(cfg, db, request, script).1.NothingReserved?
    ensures var (after, spending) := Spent(cfg, db, request, script);
      && spending.reservation.id == |Found(cfg, db, script).rows| < |after.rows|
      && AtItsPrice(cfg, after.rows[spending.reservation.id], request, script)
      && Accounted(cfg, after.rows[spending.reservation.id], script)
      && (Generates(cfg, db, request, script) ==>
            && |after.rows| == |Left(cfg, db, request, script).rows|
            && (HeldRow(cfg, db, request, script).state.Reserved? ==>
                  script.generation.CutWhileGenerating? || AsOwed(cfg, after.rows[spending.reservation.id], script)))
      && (spending.Orphaned? ==>
            && |after.rows| == |Found(cfg, db, script).rows| + 1
            && after.rows[spending.reservation.id].state.Reserved?)
  {
    hide AfterOthers, AsOwed, AtItsPrice, AnswerAccounted, FailureAccounted;
    if Generates(cfg, db, request, script) {
      GeneratedIsAccounted(cfg, db, request, script);
    } else {
      OrphanIsHeld(cfg, db, request, script);
    }
  }

  /** Who may ask at all, in the settings' own terms, and how much input may be asked for. */
  predicate MayAsk(cfg: Config, request: Request, script: Script) {
    && cfg.generationAllowed && (request.Chat? ==> script.prepared && (request.ambient ==> cfg.ambientAllowed))
    && script.count.Counted? && script.count.tokens <= cfg.maxInputTokens
  }

  /**
   * The provider is called exactly when generation is on for this request, its input was counted within the limit, and
   * its reservation was granted in time to hear of it. A request that may not ask leaves the ledger as it is.
   */
  lemma ProviderIsCalledIff(cfg: Config, db: Db, request: Request, script: Script)
    ensures var spending := Processed(cfg, db, request, script).2;
      CallsOf(spending) != [] <==>
        && MayAsk(cfg, request, script) && script.reserveFate.Returns?
        && Reserving(cfg, db, request, script).1.Granted?
    ensures !MayAsk(cfg, request, script) ==> Processed(cfg, db, request, script) == (db, Silence, NothingReserved)
  {
    hide AfterOthers, Reserve, Settle, ActualCost, FailureAccounted;
    if cfg.CountFits(script) && script.reserveFate.Returns? && Reserving(cfg, db, request, script).1.Granted? {
      var (reserved, result) := Reserving(cfg, db, request, script);
      AnswerNames(cfg, AfterOthers(cfg.policy, reserved, script.othersBeforeSettle, Some(result.reservation.id)),
                  result.reservation, script);
    }
  }

  /**
   * What a reservation stands for: background unless somebody waits for the answer, the kind of work it pays for, and
   * the counted input with the whole output limit at the configured prices, rounded up by about a microdollar at most.
   */
  lemma ReservationCoversTheWorstCase(cfg: Config, db: Db, request: Request, script: Script)
    requires !Spent(cfg, db, request, script).1.NothingReserved?
    ensures var (after, spending) := Spent(cfg, db, request, script);
      && spending.reservation.id < |after.rows|
      && var row := after.rows[spending.reservation.id];
         && (row.lane == Background <==>
               || request.Memory? || request.Biography? || request == Social(Background)
               || (request.Chat? && (request.ambient || request.career)))
         && (row.kind == CareerGeneration <==> request.Chat? && request.career)
         && (row.kind == ChatResponse <==> request.Social? || (request.Chat? && !request.career))
         && (row.kind == MemoryExtraction <==> request.Memory?)
         && (row.kind == BackstoryGeneration <==> request.Biography?)
         && (row.kind == ModerationClassification <==> request.Assessment?)
         && script.count.Counted? && cfg.prices.input.Some? && cfg.prices.output.Some?
         && var exact := 1_000.0 * (cfg.prices.input.value * script.count.tokens as real
                                    + cfg.prices.output.value * cfg.outputLimit(request) as real);
            exact <= row.maxCost as real < exact + 1_001.0
  {
    EveryReservationIsAccounted(cfg, db, request, script);
    hide Spent, Accounted, AsOwed, Generates, HeldRow, QuantizeStorable, TokenCost;
    TokenCostIsTheRoundedPrice(script.count.tokens, cfg.outputLimit(request), cfg.prices.input, cfg.prices.output);
    PriceIsNatural(cfg, request, script.count.tokens);
    QuantizeIsLeast(cfg.MaxCost(request, script.count.tokens).value, 0);
  }

  /** Every token of input is charged at the input rate, cached or not, and an impossible count is not priced at all. */
  lemma CostCoversEveryToken(cfg: Config, usage: Usage)
    ensures cfg.Priceable(usage) <==>
      && usage.input >= 0 && usage.output >= 0 && usage.cacheCreation >= 0 && usage.cacheRead >= 0
      && cfg.prices.input.Some? && cfg.prices.output.Some?
      && cfg.prices.input.value >= 0.0 && cfg.prices.output.value >= 0.0
    ensures cfg.Priceable(usage) ==>
      var exact := 1_000.0 * (cfg.prices.input.value * (usage.input + usage.cacheCreation + usage.cacheRead) as real
                              + cfg.prices.output.value * usage.output as real);
      (cfg.Cost(usage) - 1) as real < exact <= cfg.Cost(usage) as real
  {
    hide TokenCost;
    TokenCostIsTheRoundedPrice(usage.TotalInput(), usage.output, cfg.prices.input, cfg.prices.output);
  }

  lemma OrphanIsHeld(cfg: Config, db: Db, request: Request, script: Script)
    requires Spent(cfg, db, request, script).1.Orphaned? && script.reserveFate.EndsAfter?
    ensures var (after, spending) := Spent(cfg, db, request, script);
      && spending.reservation.id == |Found(cfg, db, script).rows| == |after.rows| - 1
      && AtItsPrice(cfg, after.rows[spending.reservation.id], request, script)
      && after.rows[spending.reservation.id].state.Reserved?
      && after.rows[spending.reservation.id].expiresAt == script.reserveAt + 600_000_000
  {
    hide AfterOthers, Reserve, QuantizeStorable, TokenCost, Generated;
    PriceIsNatural(cfg, request, script.count.tokens);
    ReserveOnlySweepsOrAppends(cfg.policy, Found(cfg, db, script), KindFor(request), cfg.model,
                               cfg.MaxCost(request, script.count.tokens), PriorityFor(request), script.reserveAt);
  }

  /** A reservation nobody came back for stops counting ten minutes later, and the day's next reservation expires it. */
  lemma OrphanStopsCounting(cfg: Config, db: Db, request: Request, script: Script, now: Time)
    requires Spent(cfg, db, request, script).1.Orphaned? && script.reserveAt + 600_000_000 <= now
    ensures var (after, spending) := Spent(cfg, db, request, script);
      && spending.reservation.id < |after.rows|
      && var id, row := spending.reservation.id, after.rows[spending.reservation.id];
         && Snapshot(after, now) == Snapshot(after.(rows := after.rows[id := row.(state := Expired)]), now)
         && Sweep(after.rows, row.day, now)[id].state == Expired
  {
    hide Spent, AtItsPrice;
    var (after, spending) := Spent(cfg, db, request, script);
    OrphanEnded(cfg, db, request, script);
    OrphanIsHeld(cfg, db, request, script);
    var id, row := spending.reservation.id, after.rows[spending.reservation.id];
    SumUpdate(after.rows, id, row.(state := Expired), LiveOn(UtcDay(now), now));
  }

  lemma OrphanEnded(cfg: Config, db: Db, request: Request, script: Script)
    requires Spent(cfg, db, request, script).1.Orphaned?
    ensures script.reserveFate.EndsAfter?
  {
    hide AfterOthers, Reserve, ActualCost;
  }

  lemma GeneratedIsAccounted(cfg: Config, db: Db, request: Request, script: Script)
    requires Generates(cfg, db, request, script)
    ensures var (after, spending) := Spent(cfg, db, request, script);
      && (spending.Failed? || spending.Settled?)
      && spending.reservation.id == |Found(cfg, db, script).rows| < |after.rows|
      && |after.rows| == |Left(cfg, db, request, script).rows|
      && AtItsPrice(cfg, after.rows[spending.reservation.id], request, script)
      && Accounted(cfg, after.rows[spending.reservation.id], script)
      && (HeldRow(cfg, db, request, script).state.Reserved? ==>
            script.generation.CutWhileGenerating? || AsOwed(cfg, after.rows[spending.reservation.id], script))
  {
    hide AfterOthers, Reserve, AsOwed, AnswerAccounted, FailureAccounted, ActualCost, QuantizeStorable, TokenCost;
    OwnRowIsLeft(cfg, db, request, script);
    var (after, spending) := Spent(cfg, db, request, script);
    var r, left := Reserving(cfg, db, request, script).1.reservation, Left(cfg, db, request, script);
    AnswerNames(cfg, left, r, script);
    if !script.generation.CutWhileGenerating? {
      AccountingSettlesWhatIsOwed(cfg, left, r, script);
      if left.rows[r.id].state.Reserved? { AsOwedIsAccounted(cfg, after.rows[r.id], script); }
    }
  }

  lemma AnswerNames(cfg: Config, db: Db, r: Reservation, script: Script)
    ensures script.generation.Answered? ==>
      var spending := AnswerAccounted(cfg, db, r, script.generation.usage, script).1;
      (spending.Failed? || spending.Settled?) && spending.reservation == r
  {
  }

  // ---- What a request is answered with ----

  /** An answer that is priced, settled on a row still held, and lived to hear of it. */
  ghost predicate Answers(cfg: Config, db: Db, request: Request, script: Script) {
    && Generates(cfg, db, request, script) && script.generation.Answered? && cfg.Priceable(script.generation.usage)
    && HeldRow(cfg, db, request, script).state.Reserved? && script.settleFate.Returns?
  }

  /** The reported cost stays within the reservation and the day's total within what can be stored. */
  ghost predicate Ordinary(cfg: Config, db: Db, request: Request, script: Script)
    requires Answers(cfg, db, request, script)
  {
    var row, cost := HeldRow(cfg, db, request, script), cfg.Cost(script.generation.usage);
    cost <= row.maxCost && HasHeadroom(Left(cfg, db, request, script), row.day, StorableActualCost(cost))
  }

  /** The day's total can take the cost whole. */
  predicate HasHeadroom(db: Db, day: int, storable: nat) {
    storable == 0 || SpentOn(db, day) + storable <= MAX_STORABLE_NANO
  }

  /** Billed output that was refused, with its accounting done or impossible. */
  ghost predicate RejectsOutput(cfg: Config, db: Db, request: Request, script: Script) {
    && Generates(cfg, db, request, script) && script.generation.InvalidOutput?
    && (script.settleFate.Returns? || script.generation.reported.None?
        || !cfg.Priceable(script.generation.reported.value))
  }

  lemma SettlementOf(db: Db, r: Reservation, actual: int, now: Time)
    requires Issued(db, r) && 0 <= actual
    ensures var receipt := Settle(db, r, actual, now).1;
      && receipt.completed == db.rows[r.id].state.Reserved?
      && (receipt.completed ==>
            && receipt.stored == Some(StorableActualCost(actual))
            && receipt.breach == (actual > r.maxCost)
            && (receipt.saturated <==> !HasHeadroom(db, r.day, StorableActualCost(actual))))
  {
    StorableIsStorable(actual);
    hide Sum, StorableActualCost;
  }

  lemma CostIsNatural(cfg: Config, usage: Usage)
    requires cfg.Priceable(usage)
    ensures 0 <= cfg.Cost(usage)
  {
    hide PerMillionInNano;
    TokenCostMonotone(usage.TotalInput(), usage.output, usage.TotalInput(), usage.output, cfg.prices.input,
                      cfg.prices.output);
  }

  lemma SettledIff(cfg: Config, db: Db, request: Request, script: Script)
    ensures var spending := Spent(cfg, db, request, script).1;
      && (spending.Settled? <==> Answers(cfg, db, request, script))
      && (spending.Settled? ==>
            && spending.usage == script.generation.usage
            && spending.receipt.stored == Some(StorableActualCost(cfg.Cost(spending.usage)))
            && (!spending.receipt.breach && !spending.receipt.saturated <==> Ordinary(cfg, db, request, script)))
      && (spending.Failed? && spending.rejected <==> RejectsOutput(cfg, db, request, script))
  {
    hide AfterOthers, Reserve, Settle, Release, ActualCost, StorableActualCost, QuantizeStorable, TokenCost;
    if Generates(cfg, db, request, script) {
      OwnRowIsLeft(cfg, db, request, script);
      if script.generation.Answered? && cfg.Priceable(script.generation.usage) {
        CostIsNatural(cfg, script.generation.usage);
        SettlementOf(Left(cfg, db, request, script), Reserving(cfg, db, request, script).1.reservation,
                     cfg.Cost(script.generation.usage), script.settleAt);
      }
    }
  }

  /**
   * What comes back, exactly: a social answer when an answer was generated, priced, and settled on a row still held,
   * within its reservation and the day's storable total; any other answer without that last condition; a request to
   * try again for billed output that was refused; and silence in every other case.
   */
  lemma AnsweredIff(cfg: Config, db: Db, request: Request, script: Script)
    ensures var frame := Processed(cfg, db, request, script).1;
      && (frame.SocialReply? <==>
            && cfg.Open(request, script) && request.Social? && Answers(cfg, db, request, script)
            && Ordinary(cfg, db, request, script) && script.metadataFits)
      && (frame.Reply? <==>
            && cfg.Open(request, script) && !request.Social? && Answers(cfg, db, request, script)
            && (request.Chat? ==> script.recorded))
      && (frame.Regenerate? <==>
            cfg.Open(request, script) && request.Social? && RejectsOutput(cfg, db, request, script))
  {
    hide Spent, Answers, Ordinary, RejectsOutput;
    SettledIff(cfg, db, request, script);
  }

  /** And an answer is only ever spoken after its own row completed at the reported cost, which a social one names. */
  lemma SpokenIsPaidFor(cfg: Config, db: Db, request: Request, script: Script)
    requires Processed(cfg, db, request, script).1.Reply? || Processed(cfg, db, request, script).1.SocialReply?
    ensures var (after, frame, spending) := Processed(cfg, db, request, script);
      && spending.Settled? && script.generation == Answered(spending.usage) && cfg.Priceable(spending.usage)
      && spending.reservation.id < |after.rows|
      && var row := after.rows[spending.reservation.id];
         && row.state == Completed(StorableActualCost(cfg.Cost(spending.usage)), script.settleAt)
         && AtItsPrice(cfg, row, request, script)
         && (frame.SocialReply? ==> frame.cost == row.state.cost <= row.maxCost)
  {
    hide Spent, Generates, Ordinary, RejectsOutput, StorableActualCost, QuantizeStorable, ActualCost, TokenCost;
    SettledIff(cfg, db, request, script);
    EveryReservationIsAccounted(cfg, db, request, script);
    var (after, frame, spending) := Processed(cfg, db, request, script);
    if frame.SocialReply? { OrdinaryStaysWithin(cfg, db, request, script); }
  }

  lemma OrdinaryStaysWithin(cfg: Config, db: Db, request: Request, script: Script)
    requires Answers(cfg, db, request, script) && Ordinary(cfg, db, request, script)
    ensures var row := HeldRow(cfg, db, request, script);
      AtItsPrice(cfg, row, request, script) && StorableActualCost(cfg.Cost(script.generation.usage)) <= row.maxCost
  {
    hide Reserve, AfterOthers, TokenCost;
    OwnRowIsLeft(cfg, db, request, script);
    var row := HeldRow(cfg, db, request, script);
    PriceIsNatural(cfg, request, script.count.tokens);
    QuantizeIsLeast(cfg.MaxCost(request, script.count.tokens).value, 0);
    StoredOverrunIffBreach(row.maxCost, cfg.Cost(script.generation.usage));
  }

  // ---- The service as it runs ----

  class SidecarService {
    const ledger: BudgetLedger
    const cfg: Config
    var calls: seq<Reservation>  // the reservation behind every provider generation, in order

    ghost predicate Valid()
      reads ledger
    {
      ledger.Valid() && ledger.policy == cfg.policy
    }

    constructor (ledger: BudgetLedger, cfg: Config)
      requires ledger.Valid() && ledger.policy == cfg.policy
      ensures Valid() && this.ledger == ledger && this.cfg == cfg && calls == []
    {
      this.ledger, this.cfg := ledger, cfg;
      calls := [];
    }

    /** Other callers' committed transactions. None of them holds this caller's reservation. */
    method Others(txns: seq<Txn>, own: Option<nat>)
      requires Valid()
      modifies ledger
      ensures Valid() && ledger.View() == AfterOthers(cfg.policy, old(ledger.View()), txns, own)
    {
      hide Inv, AfterOther;
      for i := 0 to |txns|
        invariant Valid() && ledger.View() == AfterOthers(cfg.policy, old(ledger.View()), txns[..i], own)
      {
        assert txns[..i + 1][..i] == txns[..i];
        OneOther(txns[i], own);
      }
      assert txns[..|txns|] == txns;
    }

    method OneOther(txn: Txn, own: Option<nat>)
      requires Valid()
      modifies ledger
      ensures Valid() && ledger.View() == AfterOther(cfg.policy, old(ledger.View()), txn, own)
    {
      hide Inv, Reserve, Settle, Release;
      if txn.ReserveTxn? {
        var _ := ledger.Reserve(txn.kind, txn.model, txn.maxCost, txn.priority, txn.now);
      } else if Issued(ledger.View(), txn.reservation) && own != Some(txn.reservation.id) {
        if txn.SettleTxn? {
          var _ := ledger.Settle(txn.reservation, txn.actual, txn.now);
        } else {
          var _ := ledger.Release(txn.reservation);
        }
      }
    }

    /** Count, reserve, generate, account. */
    method Spend(request: Request, script: Script) returns (spending: Spending)
      requires Valid()
      modifies this, ledger
      ensures Valid() && (ledger.View(), spending) == old(Spent(cfg, ledger.View(), request, script))
      ensures calls == old(calls) + CallsOf(spending)
    {
      hide Inv, Reserve, TokenCost, AfterOthers, AfterOther, Generated;
      if !script.count.Counted? || script.count.tokens > cfg.maxInputTokens { return NothingReserved; }
      var maxCost := cfg.MaxCost(request, script.count.tokens);
      Others(script.othersBeforeReserve, None);
      if script.reserveFate.EndsBefore? { return NothingReserved; }
      var admission := ledger.Reserve(KindFor(request), cfg.model, maxCost, PriorityFor(request), script.reserveAt);
      if !admission.Granted? { return NothingReserved; }
      if script.reserveFate.EndsAfter? { return Orphaned(admission.reservation); }
      spending := Generate(admission.reservation, script);
    }

    method Generate(r: Reservation, script: Script) returns (spending: Spending)
      requires Valid() && Issued(ledger.View(), r)
      modifies this, ledger
      ensures Valid() && (ledger.View(), spending) == old(Generated(cfg, ledger.View(), r, script))
      ensures calls == old(calls) + CallsOf(spending)
    {
      hide Inv, AfterOthers, Settle, Release, ActualCost, Evolves;
      calls := calls + [r];
      if script.generation.CutWhileGenerating? { return Failed(r, false); }
      Others(script.othersBeforeSettle, Some(r.id));
      StillIssued(cfg.policy, old(ledger.View()), script.othersBeforeSettle, r);
      if script.generation.Answered? {
        AnswerNames(cfg, ledger.View(), r, script);
        spending := AccountForAnswer(r, script.generation.usage, script);
      } else {
        var accounted := AccountForFailure(r, script);
        spending := Failed(r, accounted && script.generation.InvalidOutput?);
      }
    }

    lemma StillIssued(policy: Policy, db: Db, txns: seq<Txn>, r: Reservation)
      requires Issued(db, r)
      ensures Issued(AfterOthers(policy, db, txns, Some(r.id)), r)
    {
      OthersLeaveOwn(policy, db, txns, Some(r.id));
      hide AfterOthers;
      assert RowEvolves(db.rows[r.id], AfterOthers(policy, db, txns, Some(r.id)).rows[r.id]);
    }

    method AccountForAnswer(r: Reservation, usage: Usage, script: Script) returns (spending: Spending)
      requires Valid() && Issued(ledger.View(), r)
      modifies ledger
      ensures Valid() && (ledger.View(), spending) == old(AnswerAccounted(cfg, ledger.View(), r, usage, script))
    {
      hide Inv, Settle, TokenCost;
      var actual := ActualCost(usage, cfg.prices);
      if actual.None? || script.settleFate.EndsBefore? { return Failed(r, false); }
      var receipt := ledger.Settle(r, actual.value, script.settleAt);
      if !receipt.completed || script.settleFate.EndsAfter? { return Failed(r, false); }
      spending := Settled(r, usage, receipt);
    }

    /** A proven refusal releases, a reported usage settles, and anything unknown is left for expiry. */
    method AccountForFailure(r: Reservation, script: Script) returns (accounted: bool)
      requires Valid() && Issued(ledger.View(), r)
      modifies ledger
      ensures Valid() && (ledger.View(), accounted) == old(FailureAccounted(cfg, ledger.View(), r, script))
    {
      hide Inv, Settle, Release, TokenCost;
      accounted := true;
      match script.generation {
        case RefusedBeforeGenerating =>
          accounted := script.settleFate.Returns?;
          if script.settleFate.EndsBefore? { return; }
          var _ := ledger.Release(r);
        case InvalidOutput(Some(usage)) =>
          var actual := ActualCost(usage, cfg.prices);
          if actual.None? { return; }
          accounted := script.settleFate.Returns?;
          if script.settleFate.EndsBefore? { return; }
          var _ := ledger.Settle(r, actual.value, script.settleAt);
        case _ =>
      }
    }

    /** The frame sent back for one request, and at most one generation, behind the request's own reservation. */
    method Process(request: Request, script: Script) returns (frame: Frame, ghost spending: Spending)
      requires Valid()
      modifies this, ledger
      ensures Valid() && (ledger.View(), frame, spending) == old(Processed(cfg, ledger.View(), request, script))
      ensures calls == old(calls) + CallsOf(spending)
      // Spoken exactly when an answer was generated, priced, and settled on a row still held.
      ensures frame.Reply? || frame.SocialReply? ==> old(Answers(cfg, ledger.View(), request, script))
      ensures cfg.Open(request, script) && old(Answers(cfg, ledger.View(), request, script)) ==>
        if request.Social? then
          frame.SocialReply? <==> old(Ordinary(cfg, ledger.View(), request, script)) && script.metadataFits
        else frame.Reply? <==> (request.Chat? ==> script.recorded)
      // Silent or not, an accounted-for row: nothing of a request that reserved nothing, else its own row as owed.
      ensures spending.NothingReserved? && cfg.Open(request, script) ==>
        OnlySwept(old(Found(cfg, ledger.View(), script)), ledger.View())
      ensures !spending.NothingReserved? ==>
        spending.reservation.id < |ledger.rows| && Accounted(cfg, ledger.rows[spending.reservation.id], script)
    {
      hide Inv, Spent, Answers, Ordinary, Found, OnlySwept, Accounted, AtItsPrice, Generates, AsOwed;
      ghost var db := ledger.View();
      AnsweredIff(cfg, db, request, script);
      if !cfg.generationAllowed || (request.Chat? && request.ambient && !cfg.ambientAllowed) {
        return Silence, NothingReserved;
      }
      if request.Chat? && !script.prepared { return Silence, NothingReserved; }
      var outcome := Spend(request, script);
      spending := outcome;
      if outcome.NothingReserved? { NothingReservedLeavesNothing(cfg, db, request, script); }
      else { EveryReservationIsAccounted(cfg, db, request, script); }
      frame := Silence;
      match outcome {
        case NothingReserved =>
        case Orphaned(_) =>
        case Failed(_, rejected) =>
          if request.Social? && rejected { frame := Regenerate; }
        case Settled(r, usage, receipt) =>
          if request.Social? {
            if !receipt.breach && !receipt.saturated && receipt.stored.Some? && script.metadataFits {
              frame := SocialReply(receipt.stored.value);
            }
          } else if !request.Chat? || script.recorded {
            frame := Reply;
          }
      }
    }
  }
}
