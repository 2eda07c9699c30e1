# Aleatory.js in Dafny

A model of Aleatory.js, a small JavaScript library of discrete random variables
with exact fractional probabilities.

An `Aleatory` variable is a table from values to `Item`s. Each `Item` holds a
value and its probability. The table is keyed by the string `getKey`
computes for each value, so that two values that denote the same outcome
share one entry. The model covers:

- `getKey` and the identity of values it induces (module `Keys`);
- the table, its single accumulation step and its reference sums (module `Tables`);
- the queries `domain`, `probabilityAt` and `probability` (module `Variables`);
- the combinators `map`, `flatMap`, `combine` and `assume` (module `Variables`);
- the constructors `uniform`, `weighted`, `always`, `dice` and `trials` (module `Builders`);
- the arithmetic behind `trials`: powers, the coefficient recurrence and the
  binomial theorem (module `Binomial`).

Fractions are modelled as `real`. Their `mul` and `div` are the functions
`Products.Times` and `Products.Ratio`. A table is an insertion-ordered
sequence of items with pairwise distinct keys. This is the order in which a
JavaScript object enumerates property names that are not array indices, and
every key `getKey` produces is such a name. Each operation's own accumulation
loop is written as a fold of one step, `Tables.Add`. That step is
`content[getKey(v)] = new Item(v, p + alias.probability)`.

Each property is stated against an independent reference definition:

- `Keys.Same` is structural identity of values.
- `Tables.MassAt` and `Tables.MassWhere` are plain sums over a sequence of
  contributions.
- `Binomial.Choose` is Pascal's triangle.
- `Builders.Occurrences`, `Builders.WeightAt` and `Builders.TotalWeight` count
  and sum over the constructor's input.

`undefined` results are `Option.None`.

## Model

| member | source | states |
|---|---|---|
| Keys.KeyInjective | aleatory.js:72-92 | two values get the same key exactly when they denote the same outcome: same `undefined`/`null`, same `toHash` result, arrays of pairwise-same elements, or same `typeof` and `toString` text |
| Keys.NumKeyInjective | aleatory.js:72-92 | two non-negative integers get the same key exactly when they are equal |
| Keys.KeySame | aleatory.js:72-92 | values denoting the same outcome get the same key |
| Keys.DecimalInjective | aleatory.js:81-91 | the decimal length prefix written into a key is unambiguous |
| Tables.Find | aleatory.js:108-117 | the lookup `content[k]` finds an entry stored under `k`, or proves that none is |
| Tables.AddMassAt | aleatory.js:111-116 | one accumulation step adds its probability to the entry under its own key and changes no other key's probability |
| Tables.AddMass | aleatory.js:111-116 | one accumulation step adds exactly its probability to the total |
| Tables.AddAllMassAt | aleatory.js:108-117 | a whole accumulation loop leaves under each key the sum of the contributions with that key |
| Tables.AddAllMass | aleatory.js:108-117 | a whole accumulation loop conserves the sum of its contributions |
| Tables.AddAllPositive | aleatory.js:108-117 | accumulating positive contributions gives positive probabilities |
| Tables.MassAtUnique | aleatory.js:242-248 | in a table, the mass under an entry's key is that entry's probability |
| Tables.NormalizeMassAt | aleatory.js:213-217 | dividing every entry by a total divides the mass under each key by it |
| Tables.NormalizeMass | aleatory.js:213-217 | dividing every entry by a total divides the total mass by it |
| Variables.ProbabilityAtMass | aleatory.js:242-248 | `probabilityAt(v)` is the mass under `getKey(v)` |
| Variables.ProbabilityAtSupport | aleatory.js:242-248 | an outcome no domain value denotes has probability 0; with positive probabilities, an outcome has positive probability exactly when some domain value denotes it |
| Variables.ProbabilityIsMass | aleatory.js:259-268 | `probability(pred)` is the sum of the probabilities of the domain values satisfying `pred` |
| Variables.ProbabilityBounds | aleatory.js:259-268 | the probability of the always-true event is the total mass; every event of a proper variable has probability in [0, 1] |
| Variables.MapProbability | aleatory.js:105-119 | after `map(f)`, an outcome's probability is the sum of the probabilities of the values `f` sends to it, so colliding images add up |
| Variables.MapMass | aleatory.js:105-119 | `map` conserves the total mass and keeps a proper variable proper |
| Variables.MapIdentity | aleatory.js:105-119 | mapping a function that keeps every outcome leaves every probability unchanged |
| Variables.FlatMapProbability | aleatory.js:131-150 | after `flatMap(g)`, `P(w)` is the sum over the domain of `P(v) * g(v).probabilityAt(w)` |
| Variables.BindTotal | aleatory.js:131-150 | when every `g(v)` sums to 1, the contributions `flatMap`'s nested loops add up have the receiver's total mass |
| Variables.FlatMapMass | aleatory.js:131-150 | when every `g(v)` sums to 1, the table `flatMap` returns has the receiver's total mass, whether or not its probabilities are positive |
| Variables.FlatMapValid | aleatory.js:131-150 | `flatMap` of proper variables is proper |
| Variables.CombineProbability | aleatory.js:159-179 | after `combine(c, that)`, `P(z)` is the sum of `P(a) * P(b)` over the pairs whose combination has the key of `z` |
| Variables.CombineMass | aleatory.js:159-179 | the total mass of `combine` is the product of the two masses; `combine` of proper variables is proper |
| Variables.AssumeUndefined | aleatory.js:196-212 | `assume(pred)` is `undefined` exactly when `probability(pred)` is 0; with positive probabilities, exactly when no domain value satisfies `pred` |
| Variables.AssumeDomain | aleatory.js:196-219 | the domain of `assume(pred)` is exactly the satisfying values of the domain |
| Variables.AssumeProbability | aleatory.js:196-219 | each satisfying value's probability is divided by `probability(pred)` |
| Variables.AssumeOutside | aleatory.js:196-219 | an outcome no satisfying value denotes has probability 0 after `assume` |
| Variables.AssumeTotal | aleatory.js:196-219 | when defined, `assume` sums to 1 |
| Variables.AssumeValid | aleatory.js:196-219 | `assume` of a proper variable, when defined, is proper |
| Builders.UniformValid | aleatory.js:279-297 | `uniform` is `undefined` exactly for an empty list and otherwise proper |
| Builders.UniformProbability | aleatory.js:279-297 | under `uniform(xs)`, each outcome has probability (number of its occurrences in `xs`) / `xs.length` |
| Builders.UniformDomain | aleatory.js:279-297 | every domain value of `uniform(xs)` is an element of `xs` |
| Builders.AlwaysProbability | aleatory.js:358-360 | `always(v)` gives `v` probability 1 and every other outcome 0 |
| Builders.AlwaysContent | aleatory.js:358-360 | `always(v)` is proper, its domain is exactly `[v]`, and its table is the single entry `v` with probability 1 |
| Builders.FlatMapLeftIdentity | aleatory.js:131-150 | `always(v).flatMap(g)` gives every outcome the probability `g(v)` gives it |
| Variables.FlatMapAssociative | aleatory.js:131-150 | `d.flatMap(g).flatMap(h)` and `d.flatMap(x => g(x).flatMap(h))` give `w` the same probability whenever `h` gives `w` the same probability for any two values that share a key |
| Builders.FlatMapNotAssociative | aleatory.js:140-146 | without that condition the two differ: the entry of a key keeps the last value stored under it, so an `h` that separates two objects with one `toHash` result sees only the later one |
| Builders.DiceProbability | aleatory.js:369-375 | `dice(n)` is `undefined` exactly for `n <= 0`; otherwise it is proper and gives `1/n` to each of `1..n` and 0 to every other non-negative integer |
| Builders.DiceOutside | aleatory.js:369-375 | under `dice(n)`, every outcome that no face `1..n` denotes has probability 0, whatever its type |
| Builders.AccumulateNegative | aleatory.js:322-327 | the loop of `weighted` gives up exactly when some weight is negative |
| Builders.AccumulateAgrees | aleatory.js:319-338 | otherwise the loop builds the accumulation of the positive weights, and its `total` is the sum of all weights |
| Builders.WeightedUndefined | aleatory.js:311-342 | `weighted` is `undefined` exactly for an empty list, a negative weight, or weights that are all 0 |
| Builders.WeightedProbability | aleatory.js:311-349 | each outcome's probability is (sum of its weights) / (sum of all weights) |
| Builders.WeightedDomain | aleatory.js:328-338 | every domain value comes with a positive weight, so elements of weight 0 never enter the domain |
| Builders.WeightedValid | aleatory.js:311-349 | `weighted`, when defined, is proper |
| Binomial.CoefficientIsChoose | aleatory.js:428-433 | the `coefs` recurrence computes the binomial coefficients |
| Binomial.ChooseStep | aleatory.js:428-433 | `(i + 1) * C(n, i + 1) == (n - i) * C(n, i)`, the identity the recurrence relies on |
| Binomial.EntryIsTerm | aleatory.js:435-438 | the entry `coefs[i] * ps[i] * qs[i]` is `C(n, i) p^i q^(n - i)` |
| Binomial.BinomialTheorem | aleatory.js:413-438 | the entries for `0..n` successes sum to `(p + q)^n` |
| Binomial.TermsSumToOne | aleatory.js:402-438 | with `q == 1 - p`, the entries sum to 1 |
| Binomial.TermDegenerate | aleatory.js:405-411 | with `p == 0` only 0 successes are possible, and with `p == 1` only `n` |
| Builders.TrialsProbability | aleatory.js:392-441 | `trials(n, d)` is `undefined` exactly for `n < 0`; otherwise `k` successes have probability `C(n, k) p^k (1 - p)^(n - k)`, where `p` is the probability of a truthy outcome of `d`, and this covers the shortcuts for `n == 0`, `p == 0` and `p == 1` |
| Builders.TrialsMass | aleatory.js:392-441 | for `n >= 0`, `trials` sums to 1 whatever `d` is |
| Builders.TrialsValid | aleatory.js:392-441 | `trials` of a proper variable is proper |
| Builders.TrialsDomain | aleatory.js:435-438 | when both outcomes are possible, the domain is `0, 1, ..., n` in order |

## Left out

- The module export code (aleatory.js:446-457) is not modelled. It only
  registers the factory with AMD, CommonJS or a global.
- Fraction.js is not part of this model. Fractions are exact reals, and
  `add`, `sub`, `mul`, `div`, `equals` and `compare` are their arithmetic.
  Building a fraction from a float or a string, and the errors that can
  raise, are not modelled.
- User code is an opaque part of a value:
  - `toHash` and `toString` results are fixed strings carried by the value.
  - `typeof` is a tag carried by the value.
  - Their side effects and exceptions are not modelled.
- Arrays are finite trees. Cyclic arrays, on which `getKey` does not
  terminate, cannot be expressed.
- `Keys.Truthy`: the truthiness used by `trials` is computed on the modelled
  values. A number is falsy when its text is `0` or `NaN`. A string is falsy
  when empty. `false`, `undefined`, `null` and `0n` are falsy. Everything
  else is truthy.
- Predicates passed to `assume` and `probability` return a boolean. A
  non-boolean result stands for its truthiness.
- Functions passed to `map`, `flatMap` and `combine` are total. A `flatMap`
  callback that returns `undefined` would throw in JavaScript and is not
  modelled.
- `dice(n)` and `trials(n, d)` take an integer `n`. The loops' behaviour on a
  fractional or non-number `n` is not modelled.
- The probabilities are stated per key. The order of `domain()` is the
  table's insertion order, and it is only stated for `trials` and `always`.
- `Builders.UniformDomain`: this states only that the domain comes from the
  elements. That every element is represented follows from
  `Builders.UniformProbability`, which gives every element a positive
  probability, but it is not stated as a membership fact.
- `Keys.Num` stands for a non-negative integer, without bound. A JavaScript
  number is an exact integer only below 2^53. From 10^21 on, JavaScript writes
  it in exponent notation (`1e+21`), while `Keys.Decimal` keeps writing digits.
  Negative, fractional and `NaN` numbers are `Plain` values with their own
  text. Their keys are covered by `Keys.KeyInjective`.
- `Keys.Field`: the length written into a key counts the characters of the
  text. JavaScript's `length` counts UTF-16 code units, so a character outside
  the Basic Multilingual Plane counts 1 here and 2 in JavaScript. Only the
  length digits differ. Two texts share a key here exactly when they share one
  in JavaScript.
- `Variables.FlatMapAssociative`: associativity is stated only for an `h`
  that gives equal probabilities to values sharing a key. A table keeps the
  last value stored under each key (aleatory.js:146). An `h` that tells such
  values apart breaks the law, as `Builders.FlatMapNotAssociative` shows.
