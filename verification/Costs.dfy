/** The estimate and the rounded actual cost of `billing_pipeline`, in exact arithmetic. */
module Costs {
  import opened Common

  /** Prices per thousand tokens. */
  datatype Pricing = Pricing(input: real, output: real)

  const MICRO := 0.000001

  function EstimateCost(pricing: Option<Pricing>, maxTokens: int): real {
    match pricing
    case None => 0.0
    case Some(p) => ((maxTokens * 2) as real / 1000.0) * ((p.input + p.output) / 2.0)
  }

  /** Round half to even, the default of `Decimal.quantize`. */
  function RoundHalfEven(x: real): int {
    var low := x.Floor;
    var part := x - low as real;
    if part < 0.5 then low
    else if part > 0.5 then low + 1
    else if low % 2 == 0 then low else low + 1
  }

  function Quantize(x: real): real {
    RoundHalfEven(x * 1000000.0) as real / 1000000.0
  }

  function TokenCost(tokens: int, price: real): real {
    if tokens <= 0 || price <= 0.0 then 0.0 else Quantize((tokens as real / 1000.0) * price)
  }

  /** `calculate_cost`: the input cost, the output cost and their sum. */
  function CalculateCost(inputTokens: int, outputTokens: int, p: Pricing): (real, real, real) {
    var i := TokenCost(inputTokens, p.input);
    var o := TokenCost(outputTokens, p.output);
    (i, o, i + o)
  }

  /** The integer that rounding half to even means, whatever the way it is computed. */
  ghost predicate IsHalfEven(x: real, n: int) {
    var gap := if x >= n as real then x - n as real else n as real - x;
    gap < 0.5 || (gap == 0.5 && n % 2 == 0)
  }

  lemma RoundsHalfEven(x: real, n: int)
    ensures IsHalfEven(x, n) <==> n == RoundHalfEven(x)
  {
  }

  lemma QuantizeError(x: real)
    ensures x - MICRO / 2.0 <= Quantize(x) <= x + MICRO / 2.0
  {
  }

  /** Rounding moves an amount by at most half a micro-unit and never below zero. */
  lemma QuantizeBound(x: real, y: real)
    requires 0.0 <= x <= y
    ensures 0.0 <= Quantize(x) <= y + MICRO / 2.0
  {
  }

  lemma ScaleMonotone(a: int, b: int, p: real)
    requires a <= b && p >= 0.0
    ensures (a as real / 1000.0) * p <= (b as real / 1000.0) * p
  {
  }

  lemma TokenCostBound(tokens: int, maxTokens: int, price: real)
    requires tokens <= maxTokens && price >= 0.0 && maxTokens >= 0
    ensures 0.0 <= TokenCost(tokens, price) <= (maxTokens as real / 1000.0) * price + MICRO / 2.0
  {
    ScaleMonotone(0, maxTokens, price);
    if tokens > 0 && price > 0.0 {
      ScaleMonotone(0, tokens, price);
      ScaleMonotone(tokens, maxTokens, price);
      QuantizeBound((tokens as real / 1000.0) * price, (maxTokens as real / 1000.0) * price);
    }
  }

  /** The estimate is the exact cost of using the whole token limit once as input and once as output. */
  lemma EstimateIsFullUse(maxTokens: int, p: Pricing)
    ensures EstimateCost(None, maxTokens) == 0.0
    ensures EstimateCost(Some(p), maxTokens) == (maxTokens as real / 1000.0) * p.input + (maxTokens as real / 1000.0) * p.output
  {
  }

  /** A request that stays within the token limit it was estimated for costs at most one micro-unit more. */
  lemma ActualWithinEstimate(inputTokens: int, outputTokens: int, maxTokens: int, p: Pricing)
    requires p.input >= 0.0 && p.output >= 0.0 && inputTokens <= maxTokens && outputTokens <= maxTokens && maxTokens >= 0
    ensures CalculateCost(inputTokens, outputTokens, p).2 <= EstimateCost(Some(p), maxTokens) + MICRO
  {
    TokenCostBound(inputTokens, maxTokens, p.input);
    TokenCostBound(outputTokens, maxTokens, p.output);
    EstimateIsFullUse(maxTokens, p);
  }

  /** The cost of some tokens, rounded: zero without tokens or price, otherwise within half a micro-unit of the exact one. */
  lemma TokenCostNear(tokens: int, price: real)
    ensures tokens <= 0 || price <= 0.0 ==> TokenCost(tokens, price) == 0.0
    ensures tokens > 0 && price > 0.0 ==> Near(TokenCost(tokens, price), (tokens as real / 1000.0) * price)
  {
    if tokens > 0 && price > 0.0 { QuantizeError((tokens as real / 1000.0) * price); }
  }

  /** The first component is the cost of the input tokens at the input price, the second that of the output, the third their sum. */
  lemma ComponentsNearExact(inputTokens: int, outputTokens: int, p: Pricing)
    ensures var (i, o, total) := CalculateCost(inputTokens, outputTokens, p);
            && total == i + o
            && (inputTokens <= 0 || p.input <= 0.0 ==> i == 0.0)
            && (outputTokens <= 0 || p.output <= 0.0 ==> o == 0.0)
            && (inputTokens > 0 && p.input > 0.0 ==> Near(i, (inputTokens as real / 1000.0) * p.input))
            && (outputTokens > 0 && p.output > 0.0 ==> Near(o, (outputTokens as real / 1000.0) * p.output))
  {
    TokenCostNear(inputTokens, p.input);
    TokenCostNear(outputTokens, p.output);
  }

  ghost predicate Near(x: real, exact: real) {
    exact - 0.0000005 <= x <= exact + 0.0000005
  }

  /** The rounded total is within one micro-unit of the exact cost. */
  lemma CostNearExact(inputTokens: int, outputTokens: int, p: Pricing)
    requires p.input >= 0.0 && p.output >= 0.0 && inputTokens >= 0 && outputTokens >= 0
    ensures var exact := (inputTokens as real / 1000.0) * p.input + (outputTokens as real / 1000.0) * p.output;
            exact - MICRO <= CalculateCost(inputTokens, outputTokens, p).2 <= exact + MICRO
  {
    TokenCostNearExact(inputTokens, p.input);
    TokenCostNearExact(outputTokens, p.output);
    var x, y := (inputTokens as real / 1000.0) * p.input, (outputTokens as real / 1000.0) * p.output;
    AddNear(TokenCost(inputTokens, p.input), x, TokenCost(outputTokens, p.output), y);
  }

  lemma AddNear(a: real, x: real, b: real, y: real)
    requires x - MICRO / 2.0 <= a <= x + MICRO / 2.0 && y - MICRO / 2.0 <= b <= y + MICRO / 2.0
    ensures x + y - MICRO <= a + b <= x + y + MICRO
  {
  }

  lemma TokenCostNearExact(tokens: int, price: real)
    requires tokens >= 0 && price >= 0.0
    ensures var exact := (tokens as real / 1000.0) * price;
            exact - MICRO / 2.0 <= TokenCost(tokens, price) <= exact + MICRO / 2.0
  {
  }

  /** The bound is reached: two half-way costs that both round up. */
  lemma BoundIsTight()
    ensures var p := Pricing(0.0015, 0.0015);
            CalculateCost(1, 1, p).2 == EstimateCost(Some(p), 1) + MICRO
  {
  }
}
