/** The Aleatory variable itself: its queries (`domain`, `probabilityAt`,
    `probability`) and its combinators (`map`, `flatMap`, `combine`,
    `assume`), aleatory.js:105-268. Every combinator builds a fresh table by
    one fold over the receiver's domain. */
module Variables {
  import opened Optional
  import opened Keys
  import opened Products
  import opened Tables

  /** `Aleatory` (aleatory.js:52-64). */
  datatype Aleatory = Aleatory(content: Table)

  /** A proper distribution: positive probabilities summing to 1. */
  predicate Valid(d: Aleatory)
  {
    Positive(d.content) && Mass(d.content) == 1.0
  }

  //---- Queries ----//

  /** `domain` (aleatory.js:226-234): the stored values in table order. */
  function Domain(d: Aleatory): (r: seq<Value>)
    ensures |r| == |d.content|
  {
    Values(d.content)
  }

  /** `probabilityAt` (aleatory.js:242-248). */
  function ProbabilityAt(d: Aleatory, v: Value): real
  {
    Lookup(d.content, Key(v))
  }

  /** `probability` (aleatory.js:259-268): the loop over the domain adding
      `probabilityAt` of each value that satisfies `pred`. */
  function Probability(d: Aleatory, pred: Value -> bool): real
  {
    SumOver(d, Domain(d), pred)
  }

  function SumOver(d: Aleatory, xs: seq<Value>, pred: Value -> bool): real
  {
    if |xs| == 0 then 0.0
    else SumOver(d, xs[..|xs| - 1], pred) + (if pred(xs[|xs| - 1]) then ProbabilityAt(d, xs[|xs| - 1]) else 0.0)
  }

  predicate Anything(v: Value)
  {
    true
  }

  /** `probabilityAt` is the mass stored under the value's key. */
  lemma ProbabilityAtMass(d: Aleatory, v: Value)
    ensures ProbabilityAt(d, v) == MassAt(d.content, Key(v))
  {
    LookupIsMassAt(d.content, Key(v));
  }

  /** An outcome absent from the domain has probability 0, never an error;
      with positive probabilities, an outcome has positive probability exactly
      when some domain value denotes it. */
  lemma ProbabilityAtSupport(d: Aleatory, v: Value)
    ensures (forall x :: x in Domain(d) ==> !Same(x, v)) ==> ProbabilityAt(d, v) == 0.0
    ensures Positive(d.content) ==>
      (ProbabilityAt(d, v) > 0.0 <==> exists x :: x in Domain(d) && Same(x, v))
    ensures Positive(d.content) ==> ProbabilityAt(d, v) >= 0.0
  {
    var t := d.content;
    match Find(t, Key(v))
    case Some(i) =>
      KeyInjective(t[i].value, v);
      assert Domain(d)[i] == t[i].value;
    case None =>
      forall x | x in Domain(d)
        ensures !Same(x, v)
      {
        var i :| 0 <= i < |t| && Domain(d)[i] == x;
        KeyInjective(x, v);
      }
  }

  lemma {:induction false} SumOverPrefix(d: Aleatory, m: nat, pred: Value -> bool)
    requires m <= |d.content|
    ensures SumOver(d, Domain(d)[..m], pred) == MassWhere(d.content[..m], pred)
  {
    if m > 0 {
      var t := d.content;
      assert Domain(d)[..m][..m - 1] == Domain(d)[..m - 1];
      assert t[..m][..m - 1] == t[..m - 1];
      SumOverPrefix(d, m - 1, pred);
      LookupIsMassAt(t, Key(t[m - 1].value));
      MassAtUnique(t, m - 1);
    }
  }

  /** `probability` adds the probabilities of the satisfying entries. */
  lemma ProbabilityIsMass(d: Aleatory, pred: Value -> bool)
    ensures Probability(d, pred) == MassWhere(d.content, pred)
  {
    SumOverPrefix(d, |d.content|, pred);
    assert Domain(d)[..|d.content|] == Domain(d);
    assert d.content[..|d.content|] == d.content;
  }

  lemma {:induction false} MassWhereAnything(t: seq<Item>)
    ensures MassWhere(t, Anything) == Mass(t)
  {
    if |t| > 0 {
      MassWhereAnything(t[..|t| - 1]);
    }
  }

  /** The probabilities over the whole domain sum to the total mass, which is
      1 for a valid variable; any event has a probability between 0 and 1. */
  lemma ProbabilityBounds(d: Aleatory, pred: Value -> bool)
    ensures Probability(d, Anything) == Mass(d.content)
    ensures Valid(d) ==> 0.0 <= Probability(d, pred) <= 1.0
  {
    ProbabilityIsMass(d, Anything);
    MassWhereAnything(d.content);
    ProbabilityIsMass(d, pred);
    if Valid(d) {
      PositiveMassWhere(d.content, pred);
    }
  }

  //---- map ----//

  /** The contributions of `map`'s loop (aleatory.js:108-117): each entry's
      probability, carried to the image of its value. */
  function Images(t: seq<Item>, f: Value -> Value): (r: seq<Item>)
    ensures |r| == |t|
  {
    if |t| == 0 then []
    else Images(t[..|t| - 1], f) + [Item(f(t[|t| - 1].value), t[|t| - 1].probability)]
  }

  /** `map` (aleatory.js:105-119). */
  function Map(d: Aleatory, f: Value -> Value): Aleatory
  {
    Aleatory(AddAll([], Images(d.content, f)))
  }

  /** Sum of `p(x)` over the entries `x` whose image has key `k`. */
  function PreimageMass(t: seq<Item>, f: Value -> Value, k: string): real
  {
    if |t| == 0 then 0.0
    else PreimageMass(t[..|t| - 1], f, k) + (if Key(f(t[|t| - 1].value)) == k then t[|t| - 1].probability else 0.0)
  }

  lemma {:induction false} ImagesMassAt(t: seq<Item>, f: Value -> Value, k: string)
    ensures MassAt(Images(t, f), k) == PreimageMass(t, f, k)
  {
    if |t| > 0 {
      var n := |t| - 1;
      var x := Item(f(t[n].value), t[n].probability);
      assert Images(t, f) == Images(t[..n], f) + [x];
      ImagesMassAt(t[..n], f, k);
      SnocMassAt(Images(t[..n], f), x, k);
    }
  }

  lemma {:induction false} ImagesMass(t: seq<Item>, f: Value -> Value)
    ensures Mass(Images(t, f)) == Mass(t)
  {
    if |t| > 0 {
      var n := |t| - 1;
      var x := Item(f(t[n].value), t[n].probability);
      assert Images(t, f) == Images(t[..n], f) + [x];
      ImagesMass(t[..n], f);
      SnocMass(Images(t[..n], f), x);
    }
  }

  lemma {:induction false} ImagesPositive(t: seq<Item>, f: Value -> Value)
    requires Positive(t)
    ensures Positive(Images(t, f))
  {
    if |t| > 0 {
      var n := |t| - 1;
      ImagesPositive(t[..n], f);
      PositiveAppend(Images(t[..n], f), [Item(f(t[n].value), t[n].probability)]);
    }
  }

  /** Non-injective functions add the probabilities of the values they merge. */
  lemma MapProbability(d: Aleatory, f: Value -> Value, y: Value)
    ensures ProbabilityAt(Map(d, f), y) == PreimageMass(d.content, f, Key(y))
  {
    ProbabilityAtMass(Map(d, f), y);
    AddAllMassAt([], Images(d.content, f), Key(y));
    ImagesMassAt(d.content, f, Key(y));
  }

  /** `map` conserves the total mass, so it maps distributions to
      distributions. */
  lemma MapMass(d: Aleatory, f: Value -> Value)
    ensures Mass(Map(d, f).content) == Mass(d.content)
    ensures Valid(d) ==> Valid(Map(d, f))
  {
    AddAllMass([], Images(d.content, f));
    ImagesMass(d.content, f);
    if Valid(d) {
      ImagesPositive(d.content, f);
      AddAllPositive([], Images(d.content, f));
    }
  }

  lemma {:induction false} PreimageOfSame(t: seq<Item>, f: Value -> Value, k: string)
    requires forall x :: Same(f(x), x)
    ensures PreimageMass(t, f, k) == MassAt(t, k)
  {
    if |t| > 0 {
      var n := |t| - 1;
      KeyInjective(f(t[n].value), t[n].value);
      PreimageOfSame(t[..n], f, k);
    }
  }

  /** Mapping a function that keeps every outcome (the identity, say) leaves
      every probability unchanged. */
  lemma MapIdentity(d: Aleatory, f: Value -> Value, v: Value)
    requires forall x :: Same(f(x), x)
    ensures ProbabilityAt(Map(d, f), v) == ProbabilityAt(d, v)
  {
    MapProbability(d, f, v);
    PreimageOfSame(d.content, f, Key(v));
    ProbabilityAtMass(d, v);
  }

  //---- flatMap ----//

  /** One entry with its probability multiplied by `c`
      (`newDistribution...probability.mul(p)`, aleatory.js:141-142). */
  function Scale(x: Item, c: real): (r: Item)
    ensures r.value == x.value
  {
    Item(x.value, Times(x.probability, c))
  }

  /** A sub-distribution's entries, each scaled by `c`. */
  function Scaled(s: seq<Item>, c: real): (r: seq<Item>)
    ensures |r| == |s|
  {
    if |s| == 0 then [] else Scaled(s[..|s| - 1], c) + [Scale(s[|s| - 1], c)]
  }

  /** The contributions of `flatMap`'s nested loops (aleatory.js:134-148). */
  function Bind(t: seq<Item>, g: Value -> Aleatory): seq<Item>
  {
    if |t| == 0 then []
    else Bind(t[..|t| - 1], g) + Scaled(g(t[|t| - 1].value).content, t[|t| - 1].probability)
  }

  /** `flatMap` (aleatory.js:131-150). */
  function FlatMap(d: Aleatory, g: Value -> Aleatory): Aleatory
  {
    Aleatory(AddAll([], Bind(d.content, g)))
  }

  /** Sum over the entries `v` of `g(v).probabilityAt(w) * p(v)`. */
  function BindMass(t: seq<Item>, g: Value -> Aleatory, w: Value): real
  {
    if |t| == 0 then 0.0
    else BindMass(t[..|t| - 1], g, w) + Times(ProbabilityAt(g(t[|t| - 1].value), w), t[|t| - 1].probability)
  }

  lemma {:induction false} ScaledTotal(s: seq<Item>, c: real)
    ensures Mass(Scaled(s, c)) == Times(Mass(s), c)
  {
    if |s| == 0 {
      TimesFacts(0.0, c);
    } else {
      var n := |s| - 1;
      assert Scaled(s, c) == Scaled(s[..n], c) + [Scale(s[n], c)];
      ScaledTotal(s[..n], c);
      SnocMass(Scaled(s[..n], c), Scale(s[n], c));
      TimesAddLeft(Mass(s[..n]), s[n].probability, c);
    }
  }

  lemma {:induction false} ScaledMassAt(s: seq<Item>, c: real, k: string)
    ensures MassAt(Scaled(s, c), k) == Times(MassAt(s, k), c)
  {
    if |s| == 0 {
      TimesFacts(0.0, c);
    } else {
      var n := |s| - 1;
      assert Scaled(s, c) == Scaled(s[..n], c) + [Scale(s[n], c)];
      ScaledMassAt(s[..n], c, k);
      SnocMassAt(Scaled(s[..n], c), Scale(s[n], c), k);
      if Key(s[n].value) == k {
        TimesAddLeft(MassAt(s[..n], k), s[n].probability, c);
      }
    }
  }

  lemma {:induction false} ScaledPositive(s: seq<Item>, c: real)
    requires Positive(s) && c > 0.0
    ensures Positive(Scaled(s, c))
  {
    if |s| > 0 {
      var n := |s| - 1;
      ScaledPositive(s[..n], c);
      TimesFacts(s[n].probability, c);
      PositiveAppend(Scaled(s[..n], c), [Scale(s[n], c)]);
    }
  }

  lemma {:induction false} BindMassAt(t: seq<Item>, g: Value -> Aleatory, w: Value)
    ensures MassAt(Bind(t, g), Key(w)) == BindMass(t, g, w)
  {
    if |t| > 0 {
      var n := |t| - 1;
      var sub := g(t[n].value);
      var a, b := Bind(t[..n], g), Scaled(sub.content, t[n].probability);
      assert Bind(t, g) == a + b;
      BindMassAt(t[..n], g, w);
      MassAtAppend(a, b, Key(w));
      ScaledMassAt(sub.content, t[n].probability, Key(w));
      ProbabilityAtMass(sub, w);
    }
  }

  /** `flatMap` gives each outcome `w` the sum over old values `v` of
      `p(v) * toAleatory(v).probabilityAt(w)`. */
  lemma FlatMapProbability(d: Aleatory, g: Value -> Aleatory, w: Value)
    ensures ProbabilityAt(FlatMap(d, g), w) == BindMass(d.content, g, w)
  {
    ProbabilityAtMass(FlatMap(d, g), w);
    AddAllMassAt([], Bind(d.content, g), Key(w));
    BindMassAt(d.content, g, w);
  }

  lemma {:induction false} BindTotal(t: seq<Item>, g: Value -> Aleatory)
    requires forall i :: 0 <= i < |t| ==> Mass(g(t[i].value).content) == 1.0
    ensures Mass(Bind(t, g)) == Mass(t)
  {
    if |t| > 0 {
      var n := |t| - 1;
      var sub := g(t[n].value);
      var p := t[n].probability;
      forall i | 0 <= i < n
        ensures Mass(g(t[..n][i].value).content) == 1.0
      {
        assert t[..n][i] == t[i];
      }
      BindTotal(t[..n], g);
      assert Mass(sub.content) == 1.0;
      assert Bind(t, g) == Bind(t[..n], g) + Scaled(sub.content, p);
      MassAppend(Bind(t[..n], g), Scaled(sub.content, p));
      ScaledTotal(sub.content, p);
      TimesFacts(p, 1.0);
      assert Mass(t) == Mass(t[..n]) + p;
    }
  }

  lemma {:induction false} BindPositive(t: seq<Item>, g: Value -> Aleatory)
    requires Positive(t)
    requires forall i :: 0 <= i < |t| ==> Positive(g(t[i].value).content)
    ensures Positive(Bind(t, g))
  {
    if |t| > 0 {
      var n := |t| - 1;
      var sub := g(t[n].value);
      forall i | 0 <= i < n
        ensures Positive(g(t[..n][i].value).content)
      {
        assert t[..n][i] == t[i];
      }
      BindPositive(t[..n], g);
      ScaledPositive(sub.content, t[n].probability);
      PositiveAppend(Bind(t[..n], g), Scaled(sub.content, t[n].probability));
    }
  }

  /** When the receiver and every sub-distribution sum to 1, so does the
      result of `flatMap`. */
  lemma FlatMapValid(d: Aleatory, g: Value -> Aleatory)
    requires Valid(d)
    requires forall x :: x in Domain(d) ==> Valid(g(x))
    ensures Valid(FlatMap(d, g))
  {
    var t := d.content;
    forall i | 0 <= i < |t|
      ensures Valid(g(t[i].value))
    {
      assert Domain(d)[i] == t[i].value;
    }
    BindTotal(t, g);
    BindPositive(t, g);
    AddAllMass([], Bind(t, g));
    AddAllPositive([], Bind(t, g));
  }

  /** When every sub-distribution sums to 1, `flatMap` keeps the receiver's
      total mass, whether or not the probabilities are positive. */
  lemma FlatMapMass(d: Aleatory, g: Value -> Aleatory)
    requires forall x :: x in Domain(d) ==> Mass(g(x).content) == 1.0
    ensures Mass(FlatMap(d, g).content) == Mass(d.content)
  {
    var t := d.content;
    forall i | 0 <= i < |t|
      ensures Mass(g(t[i].value).content) == 1.0
    {
      assert Domain(d)[i] == t[i].value;
    }
    BindTotal(t, g);
    AddAllMass([], Bind(t, g));
  }

  //---- Chained flatMaps ----//

  /** `h` gives the outcome `w` the same probability for any two values that
      denote the same outcome. */
  ghost predicate Respects(h: Value -> Aleatory, w: Value)
  {
    forall a, b :: Same(a, b) ==> ProbabilityAt(h(a), w) == ProbabilityAt(h(b), w)
  }

  /** The term one entry adds to `BindMass`. */
  function Weigh(x: Item, h: Value -> Aleatory, w: Value): real
  {
    Times(ProbabilityAt(h(x.value), w), x.probability)
  }

  lemma SnocBindMass(a: seq<Item>, x: Item, h: Value -> Aleatory, w: Value)
    ensures BindMass(a + [x], h, w) == BindMass(a, h, w) + Weigh(x, h, w)
  {
    assert (a + [x])[..|a|] == a;
  }

  /** The sum over the entries of `f(value) * probability`: `BindMass`
      with the weight of a value left abstract. */
  function Weighed(t: seq<Item>, f: Value -> real): real
  {
    if |t| == 0 then 0.0
    else Weighed(t[..|t| - 1], f) + Times(f(t[|t| - 1].value), t[|t| - 1].probability)
  }

  /** The probability `h` gives `w`, as a weight of the value. */
  function At(h: Value -> Aleatory, w: Value): Value -> real
  {
    x => ProbabilityAt(h(x), w)
  }

  /** `f` weighs values that share a key alike. */
  ghost predicate Congruent(f: Value -> real)
  {
    forall a, b :: Same(a, b) ==> f(a) == f(b)
  }

  lemma {:induction false} BindMassWeighed(t: seq<Item>, h: Value -> Aleatory, w: Value)
    ensures BindMass(t, h, w) == Weighed(t, At(h, w))
  {
    if |t| > 0 {
      BindMassWeighed(t[..|t| - 1], h, w);
    }
  }

  lemma {:induction false} WeighedAgree(t: seq<Item>, f: Value -> real, f': Value -> real)
    requires forall x :: f(x) == f'(x)
    ensures Weighed(t, f) == Weighed(t, f')
  {
    if |t| > 0 {
      WeighedAgree(t[..|t| - 1], f, f');
    }
  }

  lemma SnocWeighed(a: seq<Item>, x: Item, f: Value -> real)
    ensures Weighed(a + [x], f) == Weighed(a, f) + Times(f(x.value), x.probability)
  {
    assert (a + [x])[..|a|] == a;
  }

  lemma {:induction false} WeighedAppend(a: seq<Item>, b: seq<Item>, f: Value -> real)
    ensures Weighed(a + b, f) == Weighed(a, f) + Weighed(b, f)
    decreases |b|
  {
    if |b| == 0 {
      assert a + b == a;
    } else {
      var b', x := b[..|b| - 1], b[|b| - 1];
      assert a + b == (a + b') + [x];
      assert b == b' + [x];
      SnocWeighed(a + b', x, f);
      SnocWeighed(b', x, f);
      WeighedAppend(a, b', f);
    }
  }

  lemma {:induction false} WeighedScaled(s: seq<Item>, c: real, f: Value -> real)
    ensures Weighed(Scaled(s, c), f) == Times(Weighed(s, f), c)
  {
    if |s| == 0 {
      TimesFacts(0.0, c);
    } else {
      var n := |s| - 1;
      var x := s[n];
      assert Scaled(s, c) == Scaled(s[..n], c) + [Scale(x, c)];
      WeighedScaled(s[..n], c, f);
      SnocWeighed(Scaled(s[..n], c), Scale(x, c), f);
      TimesAssociative(f(x.value), x.probability, c);
      TimesAddLeft(Weighed(s[..n], f), Times(f(x.value), x.probability), c);
    }
  }

  lemma {:induction false} WeighedUpdate(t: seq<Item>, i: nat, x: Item, f: Value -> real)
    requires i < |t|
    ensures Weighed(t[i := x], f)
         == Weighed(t, f) - Times(f(t[i].value), t[i].probability) + Times(f(x.value), x.probability)
  {
    var n := |t| - 1;
    assert t == t[..n] + [t[n]];
    SnocWeighed(t[..n], t[n], f);
    if i == n {
      assert t[i := x] == t[..n] + [x];
      SnocWeighed(t[..n], x, f);
    } else {
      assert t[i := x] == t[..n][i := x] + [t[n]];
      SnocWeighed(t[..n][i := x], t[n], f);
      WeighedUpdate(t[..n], i, x, f);
    }
  }

  /** One accumulation step adds the step's own term, even when it merges
      into an entry whose stored value is a different representative of the
      same outcome. */
  lemma WeighedAdd(t: Table, x: Item, f: Value -> real)
    requires Congruent(f)
    ensures Weighed(Add(t, x), f) == Weighed(t, f) + Times(f(x.value), x.probability)
  {
    match Find(t, Key(x.value))
    case Some(i) =>
      var y := Item(x.value, x.probability + t[i].probability);
      assert Add(t, x) == t[i := y];
      WeighedUpdate(t, i, y, f);
      KeyInjective(x.value, t[i].value);
      assert f(t[i].value) == f(x.value);
      TimesAddRight(f(x.value), x.probability, t[i].probability);
    case None =>
      assert Add(t, x) == t + [x];
      SnocWeighed(t, x, f);
  }

  lemma {:induction false} WeighedAddAll(t: Table, cs: seq<Item>, f: Value -> real)
    requires Congruent(f)
    ensures Weighed(AddAll(t, cs), f) == Weighed(t, f) + Weighed(cs, f)
    decreases |cs|
  {
    if |cs| > 0 {
      var n := |cs| - 1;
      WeighedAddAll(t, cs[..n], f);
      WeighedAdd(AddAll(t, cs[..n]), cs[n], f);
      assert cs == cs[..n] + [cs[n]];
      SnocWeighed(cs[..n], cs[n], f);
    }
  }

  /** Weighing the contributions of `flatMap(g)` is weighing each receiver
      entry by the weight of its sub-distribution. */
  lemma {:induction false} WeighedBind(t: seq<Item>, g: Value -> Aleatory, f: Value -> real)
    ensures Weighed(Bind(t, g), f) == Weighed(t, x => Weighed(g(x).content, f))
  {
    if |t| > 0 {
      var n := |t| - 1;
      var x := t[n];
      var sub := g(x.value).content;
      assert Bind(t, g) == Bind(t[..n], g) + Scaled(sub, x.probability);
      WeighedBind(t[..n], g, f);
      WeighedAppend(Bind(t[..n], g), Scaled(sub, x.probability), f);
      WeighedScaled(sub, x.probability, f);
    }
  }

  /** Chained `flatMap`s associate whenever `h` treats the values that share
      a key alike. `flatMap` keeps only the last representative of each key
      (aleatory.js:146), so without that condition the law fails; the lemma
      `Builders.FlatMapNotAssociative` gives an instance. */
  lemma FlatMapAssociative(d: Aleatory, g: Value -> Aleatory, h: Value -> Aleatory, w: Value)
    requires Respects(h, w)
    ensures ProbabilityAt(FlatMap(FlatMap(d, g), h), w)
         == ProbabilityAt(FlatMap(d, x => FlatMap(g(x), h)), w)
  {
    var f := At(h, w);
    var gh := x => FlatMap(g(x), h);
    var cs := Bind(d.content, g);
    assert Congruent(f);
    // The chained side.
    FlatMapProbability(FlatMap(d, g), h, w);
    BindMassWeighed(AddAll([], cs), h, w);
    WeighedAddAll([], cs, f);
    WeighedBind(d.content, g, f);
    // The nested side.
    FlatMapProbability(d, gh, w);
    BindMassWeighed(d.content, gh, w);
    forall x
      ensures At(gh, w)(x) == Weighed(g(x).content, f)
    {
      FlatMapProbability(g(x), h, w);
      BindMassWeighed(g(x).content, h, w);
    }
    WeighedAgree(d.content, At(gh, w), x => Weighed(g(x).content, f));
  }

  //---- combine ----//

  /** The contributions of the inner loop of `combine` for one entry `a` of
      the receiver (aleatory.js:166-176): each outcome `c(a, b)` with
      probability `P(a) * P(b)`. */
  function Row(a: Item, u: seq<Item>, c: (Value, Value) -> Value): (r: seq<Item>)
    ensures |r| == |u|
  {
    if |u| == 0 then []
    else Row(a, u[..|u| - 1], c) + [Item(c(a.value, u[|u| - 1].value), Times(a.probability, u[|u| - 1].probability))]
  }

  /** All contributions of `combine`'s nested loops, row by row. */
  function Pairs(t: seq<Item>, u: seq<Item>, c: (Value, Value) -> Value): seq<Item>
  {
    if |t| == 0 then [] else Pairs(t[..|t| - 1], u, c) + Row(t[|t| - 1], u, c)
  }

  /** `combine` (aleatory.js:159-179), with `that` as `e`. */
  function Combine(d: Aleatory, c: (Value, Value) -> Value, e: Aleatory): Aleatory
  {
    Aleatory(AddAll([], Pairs(d.content, e.content, c)))
  }

  /** Sum over the entries `b` of `u` with `getKey(c(a, b)) == k` of
      `P(a) * P(b)`. */
  function RowMass(a: Item, u: seq<Item>, c: (Value, Value) -> Value, k: string): real
  {
    if |u| == 0 then 0.0
    else
      var b := u[|u| - 1];
      RowMass(a, u[..|u| - 1], c, k) + (if Key(c(a.value, b.value)) == k then Times(a.probability, b.probability) else 0.0)
  }

  /** The double sum over pairs `(a, b)` of the two tables with
      `getKey(c(a, b)) == k` of `P(a) * P(b)`. */
  function PairMass(t: seq<Item>, u: seq<Item>, c: (Value, Value) -> Value, k: string): real
  {
    if |t| == 0 then 0.0 else PairMass(t[..|t| - 1], u, c, k) + RowMass(t[|t| - 1], u, c, k)
  }

  lemma {:induction false} RowMassAt(a: Item, u: seq<Item>, c: (Value, Value) -> Value, k: string)
    ensures MassAt(Row(a, u, c), k) == RowMass(a, u, c, k)
  {
    if |u| > 0 {
      var n := |u| - 1;
      var x := Item(c(a.value, u[n].value), Times(a.probability, u[n].probability));
      assert Row(a, u, c) == Row(a, u[..n], c) + [x];
      RowMassAt(a, u[..n], c, k);
      SnocMassAt(Row(a, u[..n], c), x, k);
    }
  }

  lemma {:induction false} RowTotal(a: Item, u: seq<Item>, c: (Value, Value) -> Value)
    ensures Mass(Row(a, u, c)) == Times(a.probability, Mass(u))
  {
    if |u| == 0 {
      TimesFacts(a.probability, 0.0);
    } else {
      var n := |u| - 1;
      var x := Item(c(a.value, u[n].value), Times(a.probability, u[n].probability));
      assert Row(a, u, c) == Row(a, u[..n], c) + [x];
      RowTotal(a, u[..n], c);
      SnocMass(Row(a, u[..n], c), x);
      TimesAddRight(a.probability, Mass(u[..n]), u[n].probability);
    }
  }

  lemma {:induction false} RowPositive(a: Item, u: seq<Item>, c: (Value, Value) -> Value)
    requires a.probability > 0.0 && Positive(u)
    ensures Positive(Row(a, u, c))
  {
    if |u| > 0 {
      var n := |u| - 1;
      RowPositive(a, u[..n], c);
      TimesFacts(a.probability, u[n].probability);
      PositiveAppend(Row(a, u[..n], c), [Item(c(a.value, u[n].value), Times(a.probability, u[n].probability))]);
    }
  }

  lemma {:induction false} PairsMassAt(t: seq<Item>, u: seq<Item>, c: (Value, Value) -> Value, k: string)
    ensures MassAt(Pairs(t, u, c), k) == PairMass(t, u, c, k)
  {
    if |t| > 0 {
      var n := |t| - 1;
      PairsMassAt(t[..n], u, c, k);
      RowMassAt(t[n], u, c, k);
      MassAtAppend(Pairs(t[..n], u, c), Row(t[n], u, c), k);
    }
  }

  lemma {:induction false} PairsTotal(t: seq<Item>, u: seq<Item>, c: (Value, Value) -> Value)
    ensures Mass(Pairs(t, u, c)) == Times(Mass(t), Mass(u))
  {
    if |t| == 0 {
      TimesFacts(0.0, Mass(u));
    } else {
      var n := |t| - 1;
      PairsTotal(t[..n], u, c);
      RowTotal(t[n], u, c);
      MassAppend(Pairs(t[..n], u, c), Row(t[n], u, c));
      TimesAddLeft(Mass(t[..n]), t[n].probability, Mass(u));
    }
  }

  lemma {:induction false} PairsPositive(t: seq<Item>, u: seq<Item>, c: (Value, Value) -> Value)
    requires Positive(t) && Positive(u)
    ensures Positive(Pairs(t, u, c))
  {
    if |t| > 0 {
      var n := |t| - 1;
      PairsPositive(t[..n], u, c);
      RowPositive(t[n], u, c);
      PositiveAppend(Pairs(t[..n], u, c), Row(t[n], u, c));
    }
  }

  /** `combine` gives each outcome the probability of the pairs it combines,
      under independence. */
  lemma CombineProbability(d: Aleatory, c: (Value, Value) -> Value, e: Aleatory, z: Value)
    ensures ProbabilityAt(Combine(d, c, e), z) == PairMass(d.content, e.content, c, Key(z))
  {
    ProbabilityAtMass(Combine(d, c, e), z);
    AddAllMassAt([], Pairs(d.content, e.content, c), Key(z));
    PairsMassAt(d.content, e.content, c, Key(z));
  }

  /** The total mass of `combine` is the product of the two total masses. */
  lemma CombineMass(d: Aleatory, c: (Value, Value) -> Value, e: Aleatory)
    ensures Mass(Combine(d, c, e).content) == Times(Mass(d.content), Mass(e.content))
    ensures Valid(d) && Valid(e) ==> Valid(Combine(d, c, e))
  {
    AddAllMass([], Pairs(d.content, e.content, c));
    PairsTotal(d.content, e.content, c);
    TimesFacts(1.0, 1.0);
    if Positive(d.content) && Positive(e.content) {
      PairsPositive(d.content, e.content, c);
      AddAllPositive([], Pairs(d.content, e.content, c));
    }
  }

  //---- assume ----//

  /** The items of `assume`'s first loop (aleatory.js:201-207). */
  function Successes(t: seq<Item>, pred: Value -> bool): seq<Item>
  {
    if |t| == 0 then []
    else
      var n := |t| - 1;
      if pred(t[n].value) then Successes(t[..n], pred) + [t[n]] else Successes(t[..n], pred)
  }

  /** The first loop keeps exactly the satisfying entries... */
  lemma {:induction false} SuccessesMembers(t: seq<Item>, pred: Value -> bool)
    ensures forall x :: x in Successes(t, pred) <==> x in t && pred(x.value)
  {
    if |t| > 0 {
      var n := |t| - 1;
      SuccessesMembers(t[..n], pred);
      assert t == t[..n] + [t[n]];
    }
  }

  /** ... each under its own key, so they still form a table. */
  lemma {:induction false} SuccessesKeyed(t: seq<Item>, pred: Value -> bool)
    requires WellKeyed(t)
    ensures WellKeyed(Successes(t, pred))
  {
    if |t| > 0 {
      var n := |t| - 1;
      var r := Successes(t[..n], pred);
      SuccessesKeyed(t[..n], pred);
      if pred(t[n].value) {
        SuccessesMembers(t[..n], pred);
        forall i | 0 <= i < |r|
          ensures Key(r[i].value) != Key(t[n].value)
        {
          assert r[i] in r;
          var m :| 0 <= m < n && t[..n][m] == r[i];
          assert t[m] == r[i];
        }
        SnocKeyed(r, t[n]);
      }
    }
  }

  /** `assume` (aleatory.js:196-219): `undefined` when the satisfying mass is
      0, otherwise the satisfying entries rescaled by that mass. */
  function Assume(d: Aleatory, pred: Value -> bool): Option<Aleatory>
  {
    SuccessesKeyed(d.content, pred);
    var s := Successes(d.content, pred);
    var total := Mass(s);
    if total == 0.0 then None else Some(Aleatory(Normalize(s, total)))
  }

  lemma {:induction false} SuccessesMass(t: seq<Item>, pred: Value -> bool)
    ensures Mass(Successes(t, pred)) == MassWhere(t, pred)
  {
    if |t| > 0 {
      var n := |t| - 1;
      var r := Successes(t[..n], pred);
      SuccessesMass(t[..n], pred);
      if pred(t[n].value) {
        SnocMass(r, t[n]);
        assert MassWhere(t, pred) == MassWhere(t[..n], pred) + t[n].probability;
      } else {
        assert MassWhere(t, pred) == MassWhere(t[..n], pred);
      }
    }
  }

  lemma SuccessesPositive(t: seq<Item>, pred: Value -> bool)
    requires Positive(t)
    ensures Positive(Successes(t, pred))
  {
    var s := Successes(t, pred);
    SuccessesMembers(t, pred);
    forall i | 0 <= i < |s|
      ensures s[i].probability > 0.0
    {
      assert s[i] in s;
    }
  }

  /** `assume` fails exactly when the satisfying values have probability 0;
      with positive probabilities, exactly when no domain value satisfies
      the predicate. */
  lemma AssumeUndefined(d: Aleatory, pred: Value -> bool)
    ensures Assume(d, pred).None? <==> Probability(d, pred) == 0.0
    ensures Positive(d.content) ==>
      (Assume(d, pred).None? <==> forall x :: x in Domain(d) ==> !pred(x))
  {
    SuccessesMass(d.content, pred);
    ProbabilityIsMass(d, pred);
    if Positive(d.content) {
      PositiveMassWhere(d.content, pred);
      if forall x :: x in Domain(d) ==> !pred(x) {
        forall i | 0 <= i < |d.content|
          ensures !pred(d.content[i].value)
        {
          assert Domain(d)[i] == d.content[i].value;
        }
      }
    }
  }

  lemma AssumeKeeps(d: Aleatory, pred: Value -> bool, x: Value)
    requires Assume(d, pred).Some?
    requires x in Domain(Assume(d, pred).value)
    ensures x in Domain(d) && pred(x)
  {
    var t := d.content;
    var s := Successes(t, pred);
    var r := Assume(d, pred).value;
    SuccessesMembers(t, pred);
    var i :| 0 <= i < |r.content| && Domain(r)[i] == x;
    assert s[i] in s;
    var j :| 0 <= j < |t| && t[j] == s[i];
    assert Domain(d)[j] == x;
  }

  lemma AssumeFinds(d: Aleatory, pred: Value -> bool, x: Value)
    requires Assume(d, pred).Some?
    requires x in Domain(d) && pred(x)
    ensures x in Domain(Assume(d, pred).value)
  {
    var t := d.content;
    var s := Successes(t, pred);
    var r := Assume(d, pred).value;
    SuccessesMembers(t, pred);
    var j :| 0 <= j < |t| && Domain(d)[j] == x;
    assert t[j] in t;
    var i :| 0 <= i < |s| && s[i] == t[j];
    assert Domain(r)[i] == x;
  }

  /** The domain after `assume` is exactly the satisfying values. */
  lemma AssumeDomain(d: Aleatory, pred: Value -> bool)
    requires Assume(d, pred).Some?
    ensures forall x :: x in Domain(Assume(d, pred).value) <==> x in Domain(d) && pred(x)
  {
    forall x
      ensures x in Domain(Assume(d, pred).value) <==> x in Domain(d) && pred(x)
    {
      if x in Domain(Assume(d, pred).value) {
        AssumeKeeps(d, pred, x);
      }
      if x in Domain(d) && pred(x) {
        AssumeFinds(d, pred, x);
      }
    }
  }

  /** After `assume` the probabilities sum to 1. */
  lemma AssumeTotal(d: Aleatory, pred: Value -> bool)
    requires Assume(d, pred).Some?
    ensures Probability(d, pred) != 0.0
    ensures Mass(Assume(d, pred).value.content) == 1.0
  {
    var s := Successes(d.content, pred);
    SuccessesMass(d.content, pred);
    ProbabilityIsMass(d, pred);
    NormalizeMass(s, Mass(s));
    RatioFacts(0.0, Mass(s));
  }

  /** A satisfying entry keeps its probability in the first loop. */
  lemma SuccessesKeep(t: Table, pred: Value -> bool, j: nat)
    requires j < |t| && pred(t[j].value)
    ensures MassAt(Successes(t, pred), Key(t[j].value)) == t[j].probability
  {
    var s := Successes(t, pred);
    SuccessesMembers(t, pred);
    SuccessesKeyed(t, pred);
    assert t[j] in s;
    var i :| 0 <= i < |s| && s[i] == t[j];
    MassAtUnique(s, i);
  }

  /** After `assume`, each satisfying value has its old probability divided by
      the probability of the condition. */
  lemma AssumeProbability(d: Aleatory, pred: Value -> bool, v: Value)
    requires Assume(d, pred).Some?
    ensures Probability(d, pred) != 0.0
    ensures v in Domain(d) && pred(v) ==>
      ProbabilityAt(Assume(d, pred).value, v) == Ratio(ProbabilityAt(d, v), Probability(d, pred))
  {
    var t := d.content;
    var s := Successes(t, pred);
    SuccessesMass(t, pred);
    ProbabilityIsMass(d, pred);
    if v in Domain(d) && pred(v) {
      var j :| 0 <= j < |t| && Domain(d)[j] == v;
      SuccessesKeep(t, pred, j);
      MassAtUnique(t, j);
      ProbabilityAtMass(d, v);
      assert Assume(d, pred).value.content == Normalize(s, Mass(s));
      NormalizeMassAt(s, Mass(s), Key(v));
      ProbabilityAtMass(Assume(d, pred).value, v);
    }
  }

  /** After `assume`, an outcome that no satisfying value denotes has
      probability 0. */
  lemma AssumeOutside(d: Aleatory, pred: Value -> bool, v: Value)
    requires Assume(d, pred).Some?
    requires forall x :: x in Domain(d) && pred(x) ==> !Same(x, v)
    ensures ProbabilityAt(Assume(d, pred).value, v) == 0.0
  {
    var t := d.content;
    var s := Successes(t, pred);
    SuccessesMembers(t, pred);
    forall i | 0 <= i < |s|
      ensures Key(s[i].value) != Key(v)
    {
      assert s[i] in s;
      var j :| 0 <= j < |t| && t[j] == s[i];
      assert Domain(d)[j] == s[i].value;
      KeyInjective(s[i].value, v);
    }
    MassAtAbsent(s, Key(v));
    NormalizeMassAt(s, Mass(s), Key(v));
    RatioFacts(0.0, Mass(s));
    ProbabilityAtMass(Assume(d, pred).value, v);
  }

  /** `assume` maps valid variables to valid variables. */
  lemma AssumeValid(d: Aleatory, pred: Value -> bool)
    requires Valid(d) && Assume(d, pred).Some?
    ensures Valid(Assume(d, pred).value)
  {
    var s := Successes(d.content, pred);
    SuccessesMass(d.content, pred);
    SuccessesPositive(d.content, pred);
    PositiveMass(s, "");
    NormalizePositive(s, Mass(s));
    AssumeTotal(d, pred);
  }
}
