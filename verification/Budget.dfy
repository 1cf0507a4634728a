/**
 * The admission policy: integer nano-USD, no clock, no database.
 *
 * Prices and the reserve ratio are exact reals; every rounding the program makes is
 * written out. A price of None stands for one that is missing or unusable.
 */
module Budget {
  import opened Wrappers

  const NANO: nat := 1_000_000_000
  const STORAGE_SCALE_NANO: nat := 1_000
  const MAX_STORABLE_NANO: nat := 999_999_999_999_000

  datatype Priority = ImmediateHuman | Background

  datatype RequestKind =
    ChatResponse | BackstoryGeneration | MemoryExtraction | ModerationClassification | CareerGeneration

  datatype Decision =
    Admitted | DeniedCeiling | DeniedReserve | DeniedCircuitOpen | DeniedUnknownPricing | DeniedInvalidRequest

  /** What the ledger already owes: money charged, live reservations, and the breaker. */
  datatype BudgetState = BudgetState(settled: int, outstanding: int, circuitOpen: bool) {
    function Committed(): int { settled + outstanding }
  }

  /** The configuration start-up accepts: a positive storable ceiling, a ratio within [0, 1]. */
  datatype Policy = Policy(ceiling: int, ratio: real) {
    ghost predicate Valid() { 0 < ceiling <= MAX_STORABLE_NANO && 0.0 <= ratio <= 1.0 }
    function Floor(): int { ReserveFloor(ceiling, ratio) }
  }

  function Ceil(x: real): int { -((-x).Floor) }

  function ReserveFloor(ceiling: int, ratio: real): int { Ceil(ceiling as real * ratio) }

  function Priced(price: real, tokens: int): real { price * tokens as real }

  /** From a total priced per million tokens to whole nano-USD, rounded up. */
  function PerMillionInNano(total: real): int { Ceil(total / 1_000_000.0 * NANO as real) }

  /** What a token count costs, rounded up, or None when the price is unusable. */
  function TokenCost(input: int, output: int, inputPrice: Option<real>, outputPrice: Option<real>): Option<int> {
    if input < 0 || output < 0 || inputPrice.None? || outputPrice.None? then None
    else if inputPrice.value < 0.0 || outputPrice.value < 0.0 then None
    else
      Some(PerMillionInNano(Priced(inputPrice.value, input) + Priced(outputPrice.value, output)))
  }

  function Admit(policy: Policy, state: BudgetState, maxCost: Option<int>, priority: Priority): Decision {
    if state.circuitOpen then DeniedCircuitOpen
    else if maxCost.None? then DeniedUnknownPricing
    else if policy.ceiling <= 0 || maxCost.value < 0 then DeniedInvalidRequest
    else
      var projected := state.Committed() + maxCost.value;
      if projected > policy.ceiling then DeniedCeiling
      else if priority.Background? && projected > policy.ceiling - policy.Floor() then DeniedReserve
      else Admitted
  }

  /** Python's floor division negated twice: the least whole number of microdollars not below nano. */
  function QuantizeStorable(nano: int): nat {
    if nano <= 0 then 0 else -((-nano) / STORAGE_SCALE_NANO) * STORAGE_SCALE_NANO
  }

  function StorableActualCost(actual: int): nat {
    if actual < 0 then 0 else Min(QuantizeStorable(actual), MAX_STORABLE_NANO)
  }

  function CircuitShouldOpen(maxCost: int, actual: int): bool {
    actual < 0 || maxCost < 0 || actual > maxCost
  }

  function Min(a: int, b: int): int { if a < b then a else b }
  function Max(a: int, b: int): int { if a < b then b else a }

  // ---- What the roundings promise ----

  lemma CeilIsLeastUpperBound(x: real, k: int)
    ensures x <= Ceil(x) as real < x + 1.0
    ensures x <= k as real ==> Ceil(x) <= k
  {
    var f := (-x).Floor;
    assert f as real <= -x < f as real + 1.0;
    if x <= k as real {
      assert (-k) as real <= -x;
      assert -k < f + 1;
    }
  }

  /** The reserve never gives background work any part of the protected share, and never exceeds the ceiling. */
  lemma ReserveFloorProtects(ceiling: int, ratio: real)
    requires 0 < ceiling && 0.0 <= ratio <= 1.0
    ensures ceiling as real * ratio <= ReserveFloor(ceiling, ratio) as real
    ensures 0 <= ReserveFloor(ceiling, ratio) <= ceiling
  {
    ShareWithinWhole(ceiling as real, ratio);
    CeilWithin(ceiling as real * ratio, ceiling);
  }

  /** In whole numbers, reaching past what rounding up protects is reaching into the exact share itself. */
  lemma ReachesIntoShare(projected: int, ceiling: int, ratio: real)
    ensures projected > ceiling - ReserveFloor(ceiling, ratio)
      <==> ceiling as real * ratio > (ceiling - projected) as real
  {
    hide Ceil;
    CeilIsLeastUpperBound(ceiling as real * ratio, ceiling - projected);
  }

  /**
   * The decision from the numbers alone. An open breaker, an unknown price, and an impossible request each have their
   * own refusal, in that order; beyond them every lane is bound by the ceiling, only background work by the exact
   * share that is protected, and nothing else is ever refused.
   */
  lemma AdmissionByTheNumbers(policy: Policy, state: BudgetState, maxCost: Option<int>, lane: Priority)
    ensures var decision := Admit(policy, state, maxCost, lane);
      && (decision.DeniedCircuitOpen? <==> state.circuitOpen)
      && (decision.DeniedUnknownPricing? <==> !state.circuitOpen && maxCost.None?)
      && (decision.DeniedInvalidRequest? <==>
            !state.circuitOpen && maxCost.Some? && (policy.ceiling <= 0 || maxCost.value < 0))
    ensures !state.circuitOpen && maxCost.Some? && policy.ceiling > 0 && maxCost.value >= 0 ==>
      var decision := Admit(policy, state, maxCost, lane);
      var projected := state.settled + state.outstanding + maxCost.value;
      var intoShare := policy.ceiling as real * policy.ratio > (policy.ceiling - projected) as real;
      && (decision.DeniedCeiling? <==> projected > policy.ceiling)
      && (decision.DeniedReserve? <==> projected <= policy.ceiling && lane == Background && intoShare)
      && (decision.Admitted? <==> projected <= policy.ceiling && (lane == Background ==> !intoShare))
  {
    if maxCost.Some? {
      ReachesIntoShare(state.settled + state.outstanding + maxCost.value, policy.ceiling, policy.ratio);
    }
    hide ReserveFloor;
  }

  lemma CeilWithin(x: real, k: int)
    requires 0.0 <= x <= k as real
    ensures x <= Ceil(x) as real && 0 <= Ceil(x) <= k
  {
    CeilIsLeastUpperBound(x, k);
  }

  lemma ShareWithinWhole(whole: real, ratio: real)
    requires 0.0 <= whole && 0.0 <= ratio <= 1.0
    ensures 0.0 <= whole * ratio <= whole
  {
    assert whole * (1.0 - ratio) >= 0.0;
  }

  /** Quantizing is the least multiple of the storage scale that is not below the amount. */
  lemma QuantizeIsLeast(nano: int, k: int)
    ensures QuantizeStorable(nano) % STORAGE_SCALE_NANO == 0
    ensures nano <= QuantizeStorable(nano)
    ensures 0 <= k && nano <= k && k % STORAGE_SCALE_NANO == 0 ==> QuantizeStorable(nano) <= k
    ensures 0 <= nano ==> QuantizeStorable(nano) < nano + STORAGE_SCALE_NANO
  {
  }

  lemma StorableIsStorable(actual: int)
    ensures 0 <= StorableActualCost(actual) <= MAX_STORABLE_NANO
    ensures StorableActualCost(actual) % STORAGE_SCALE_NANO == 0
  {
    hide QuantizeStorable;
    QuantizeIsLeast(actual, 0);
  }

  /**
   * Against a quantized reservation, the stored cost exceeds the reservation exactly when the breaker fires, save for
   * a negative report, which stores nothing, and a reservation that already sits at the storage limit.
   */
  lemma StoredOverrunIffBreach(maxCost: nat, actual: int)
    requires maxCost % STORAGE_SCALE_NANO == 0
    ensures StorableActualCost(actual) > maxCost
      <==> CircuitShouldOpen(maxCost, actual) && 0 <= actual && maxCost < MAX_STORABLE_NANO
  {
    QuantizeIsLeast(actual, maxCost);
  }

  /** The overrun that is stored without being visible as one: the breaker fires, the row shows no excess. */
  lemma OverrunAtTheLimitIsInvisible(actual: int)
    requires actual > MAX_STORABLE_NANO
    ensures CircuitShouldOpen(MAX_STORABLE_NANO, actual) && StorableActualCost(actual) == MAX_STORABLE_NANO
  {
    QuantizeIsLeast(actual, 0);
  }

  lemma StoredOverrunIsBreach(maxCost: nat, actual: int)
    requires maxCost % STORAGE_SCALE_NANO == 0
    ensures StorableActualCost(actual) > maxCost ==> CircuitShouldOpen(maxCost, actual)
  {
    QuantizeIsLeast(actual, maxCost);
  }

  lemma ProductNonNegative(x: real, y: real)
    requires 0.0 <= x && 0.0 <= y
    ensures 0.0 <= x * y
  {
  }

  lemma PricedMonotone(price: real, a: int, b: int)
    requires 0.0 <= price && 0 <= a <= b
    ensures 0.0 <= Priced(price, a) <= Priced(price, b)
  {
    var x, y := a as real, b as real;
    ProductNonNegative(price, x);
    ProductNonNegative(price, y - x);
    assert price * (y - x) == price * y - price * x;
  }

  lemma PerMillionMonotone(x: real, y: real)
    requires 0.0 <= x <= y
    ensures 0 <= PerMillionInNano(x) <= PerMillionInNano(y)
  {
    var a, b := x / 1_000_000.0 * NANO as real, y / 1_000_000.0 * NANO as real;
    assert 0.0 <= a <= b;
    hide Ceil;
    CeilIsLeastUpperBound(a, Ceil(b));
    CeilIsLeastUpperBound(b, 0);
    CeilIsLeastUpperBound(a, -1);
  }

  /**
   * What counts cost, exactly: input at the input price and output at the output price, both in dollars a million
   * tokens, which is a thousand nano-USD a token and dollar, rounded up once. Refused are only negative counts and
   * missing or negative prices.
   */
  lemma TokenCostIsTheRoundedPrice(input: int, output: int, p: Option<real>, q: Option<real>)
    ensures TokenCost(input, output, p, q).None?
      <==> input < 0 || output < 0 || p.None? || q.None? || p.value < 0.0 || q.value < 0.0
    ensures TokenCost(input, output, p, q).Some? ==>
      var exact := 1_000.0 * (p.value * input as real + q.value * output as real);
      var cost := TokenCost(input, output, p, q).value;
      (cost - 1) as real < exact <= cost as real
  {
    hide Ceil;
    if TokenCost(input, output, p, q).Some? {
      var total := p.value * input as real + q.value * output as real;
      CeilIsLeastUpperBound(total / 1_000_000.0 * NANO as real, 0);
      assert total / 1_000_000.0 * NANO as real == 1_000.0 * total;
    }
  }

  lemma TokenCostMonotone(in1: int, out1: int, in2: int, out2: int, p: Option<real>, q: Option<real>)
    requires 0 <= in1 <= in2 && 0 <= out1 <= out2
    ensures TokenCost(in1, out1, p, q).Some? <==> TokenCost(in2, out2, p, q).Some?
    ensures TokenCost(in2, out2, p, q).Some? ==>
      0 <= TokenCost(in1, out1, p, q).value <= TokenCost(in2, out2, p, q).value
  {
    hide Priced, PerMillionInNano;
    if TokenCost(in2, out2, p, q).Some? {
      PricedMonotone(p.value, in1, in2);
      PricedMonotone(q.value, out1, out2);
      PerMillionMonotone(Priced(p.value, in1) + Priced(q.value, out1), Priced(p.value, in2) + Priced(q.value, out2));
    }
  }

  /**
   * A completion whose reported total input stays within the counted input and whose output stays
   * within the limit never opens the circuit: the reservation priced at the limits covers it.
   */
  lemma HonestUsageNeverBreaches(counted: int, limit: int, usedIn: int, usedOut: int, p: Option<real>, q: Option<real>)
    requires 0 <= usedIn <= counted && 0 <= usedOut <= limit
    requires TokenCost(counted, limit, p, q).Some?
    ensures TokenCost(usedIn, usedOut, p, q).Some?
    ensures !CircuitShouldOpen(QuantizeStorable(TokenCost(counted, limit, p, q).value),
                               TokenCost(usedIn, usedOut, p, q).value)
  {
    hide TokenCost, QuantizeStorable;
    TokenCostMonotone(usedIn, usedOut, counted, limit, p, q);
    QuantizeIsLeast(TokenCost(counted, limit, p, q).value, 0);
  }
}
