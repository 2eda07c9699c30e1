/** The constructors of Aleatory variables: `uniform`, `weighted`, `always`,
    `dice` and `trials` (aleatory.js:270-441). Each returns `undefined` on
    the inputs it rejects, modelled as `None`. */
module Builders {
  import opened Optional
  import opened Keys
  import opened Products
  import opened Tables
  import opened Variables
  import opened Binomial

  /** Only values that were added can appear in a table built by `AddAll`. */
  lemma AddValue(t: Table, it: Item, x: Value)
    requires x in Domain(Aleatory(Add(t, it)))
    ensures x in Domain(Aleatory(t)) || x == it.value
  {
    var r := Add(t, it);
    var j :| 0 <= j < |r| && r[j].value == x;
    match Find(t, Key(it.value))
    case Some(i) =>
      assert r == t[i := Item(it.value, it.probability + t[i].probability)];
      if j != i {
        assert t[j].value == x;
        assert Domain(Aleatory(t))[j] == x;
      }
    case None =>
      assert r == t + [it];
      if j < |t| {
        assert Domain(Aleatory(t))[j] == x;
      }
  }

  lemma {:induction false} AddAllValues(cs: seq<Item>, x: Value)
    requires x in Domain(Aleatory(AddAll([], cs)))
    ensures x in Values(cs)
  {
    if |cs| > 0 {
      var n := |cs| - 1;
      var prev := AddAll([], cs[..n]);
      assert AddAll([], cs) == Add(prev, cs[n]);
      AddValue(prev, cs[n], x);
      if x != cs[n].value {
        AddAllValues(cs[..n], x);
        var j :| 0 <= j < n && Values(cs[..n])[j] == x;
        assert cs[..n][j] == cs[j];
        assert Values(cs)[j] == x;
      } else {
        assert Values(cs)[n] == x;
      }
    }
  }

  //---- uniform ----//

  /** One item of probability `p` per element, in order: the items of the
      loop of `uniform`. */
  function Spread(xs: seq<Value>, p: real): (r: seq<Item>)
    ensures |r| == |xs|
  {
    if |xs| == 0 then [] else Spread(xs[..|xs| - 1], p) + [Item(xs[|xs| - 1], p)]
  }

  /** How many elements denote the outcome `v`. */
  function Occurrences(xs: seq<Value>, v: Value): nat
  {
    if |xs| == 0 then 0
    else Occurrences(xs[..|xs| - 1], v) + (if Same(xs[|xs| - 1], v) then 1 else 0)
  }

  /** `uniform` (aleatory.js:279-297): `undefined` for no elements, otherwise
      `1/n` added for each element under its key. */
  function Uniform(xs: seq<Value>): Option<Aleatory>
  {
    if |xs| == 0 then None
    else Some(Aleatory(AddAll([], Spread(xs, Ratio(1.0, |xs| as real)))))
  }

  /** The last element adds `p` under its own key and nothing elsewhere. */
  lemma SpreadSnoc(xs: seq<Value>, p: real, v: Value)
    requires |xs| > 0
    ensures MassAt(Spread(xs, p), Key(v))
         == MassAt(Spread(xs[..|xs| - 1], p), Key(v)) + (if Same(xs[|xs| - 1], v) then p else 0.0)
  {
    var n := |xs| - 1;
    assert Spread(xs, p) == Spread(xs[..n], p) + [Item(xs[n], p)];
    SnocMassAt(Spread(xs[..n], p), Item(xs[n], p), Key(v));
    KeyInjective(xs[n], v);
  }

  lemma {:induction false} SpreadMassAt(xs: seq<Value>, p: real, v: Value)
    ensures MassAt(Spread(xs, p), Key(v)) == Times(Occurrences(xs, v) as real, p)
  {
    if |xs| == 0 {
      TimesFacts(1.0, p);
    } else {
      var n := |xs| - 1;
      var c := Occurrences(xs[..n], v);
      SpreadMassAt(xs[..n], p, v);
      SpreadSnoc(xs, p, v);
      if Same(xs[n], v) {
        assert Occurrences(xs, v) == c + 1;
        TimesAddLeft(c as real, 1.0, p);
        TimesFacts(1.0, p);
      } else {
        assert Occurrences(xs, v) == c;
      }
    }
  }

  lemma {:induction false} SpreadMass(xs: seq<Value>, p: real)
    ensures Mass(Spread(xs, p)) == Times(|xs| as real, p)
  {
    if |xs| == 0 {
      TimesFacts(1.0, p);
    } else {
      var n := |xs| - 1;
      SpreadMass(xs[..n], p);
      SnocMass(Spread(xs[..n], p), Item(xs[n], p));
      TimesAddLeft(n as real, 1.0, p);
      TimesFacts(1.0, p);
    }
  }

  lemma {:induction false} SpreadPositive(xs: seq<Value>, p: real)
    requires p > 0.0
    ensures Positive(Spread(xs, p))
  {
    if |xs| > 0 {
      var n := |xs| - 1;
      SpreadPositive(xs[..n], p);
    }
  }

  /** Repeated elements add up: each outcome has probability
      (number of its occurrences) / n. */
  lemma UniformProbability(xs: seq<Value>, v: Value)
    requires |xs| > 0
    ensures ProbabilityAt(Uniform(xs).value, v) == Ratio(Occurrences(xs, v) as real, |xs| as real)
  {
    var n := |xs| as real;
    var s := Spread(xs, Ratio(1.0, n));
    ProbabilityAtMass(Uniform(xs).value, v);
    AddAllMassAt([], s, Key(v));
    SpreadMassAt(xs, Ratio(1.0, n), v);
    TimesReciprocal(Occurrences(xs, v) as real, n);
  }

  /** `uniform` is `undefined` exactly for no elements, and otherwise a
      proper distribution. */
  lemma UniformValid(xs: seq<Value>)
    ensures Uniform(xs).None? <==> |xs| == 0
    ensures |xs| > 0 ==> Valid(Uniform(xs).value)
  {
    if |xs| > 0 {
      var n := |xs| as real;
      var s := Spread(xs, Ratio(1.0, n));
      AddAllMass([], s);
      SpreadMass(xs, Ratio(1.0, n));
      TimesReciprocal(n, n);
      RatioFacts(1.0, n);
      SpreadPositive(xs, Ratio(1.0, n));
      AddAllPositive([], s);
    }
  }

  /** Only the given elements make up the domain. */
  lemma UniformDomain(xs: seq<Value>, x: Value)
    requires |xs| > 0 && x in Domain(Uniform(xs).value)
    ensures x in xs
  {
    var s := Spread(xs, Ratio(1.0, |xs| as real));
    AddAllValues(s, x);
    var j :| 0 <= j < |s| && Values(s)[j] == x;
    SpreadValue(xs, Ratio(1.0, |xs| as real), j);
  }

  lemma {:induction false} SpreadValue(xs: seq<Value>, p: real, j: nat)
    requires j < |xs|
    ensures Spread(xs, p)[j].value == xs[j]
  {
    var n := |xs| - 1;
    if j < n {
      SpreadValue(xs[..n], p, j);
    }
  }

  //---- always ----//

  /** `always` (aleatory.js:358-360): `uniform` of the single value. */
  function Always(v: Value): Aleatory
  {
    Uniform([v]).value
  }

  lemma SingleOccurrence(x: Value, v: Value)
    ensures Occurrences([x], v) == if Same(x, v) then 1 else 0
  {
    assert [x][..0] == [];
  }

  /** The value itself has probability 1 and every other outcome 0. */
  lemma AlwaysProbability(v: Value, w: Value)
    ensures ProbabilityAt(Always(v), w) == if Same(v, w) then 1.0 else 0.0
  {
    UniformProbability([v], w);
    SingleOccurrence(v, w);
    RatioFacts(1.0, 1.0);
  }

  lemma AlwaysValid(v: Value)
    ensures Valid(Always(v))
  {
    UniformValid([v]);
  }

  /** `always(v)` is proper and holds `v` alone. */
  lemma AlwaysDomain(v: Value)
    ensures Valid(Always(v))
    ensures Domain(Always(v)) == [v]
  {
    AlwaysValid(v);
    var s := Spread([v], Ratio(1.0, 1.0));
    assert s == [Item(v, Ratio(1.0, 1.0))] by {
      assert [v][..0] == [];
    }
    assert s[..0] == [];
    assert AddAll([], s) == Add([], s[0]);
  }

  /** `always(v)` is proper, and its table is the one entry `v` with probability 1. */
  lemma AlwaysContent(v: Value)
    ensures Valid(Always(v))
    ensures Domain(Always(v)) == [v]
    ensures Always(v).content == [Item(v, 1.0)]
  {
    AlwaysDomain(v);
    AlwaysProbability(v, v);
    KeyInjective(v, v);
    var t := Always(v).content;
    assert |t| == 1 && t[0].value == v by {
      assert Domain(Always(v))[0] == v;
    }
    assert t[..0] == [];
    LookupIsMassAt(t, Key(v));
    assert t[0].probability == 1.0;
  }

  /** `always(v).flatMap(g)` is `g(v)`. */
  lemma FlatMapLeftIdentity(v: Value, g: Value -> Aleatory, w: Value)
    ensures ProbabilityAt(FlatMap(Always(v), g), w) == ProbabilityAt(g(v), w)
  {
    AlwaysContent(v);
    var t := Always(v).content;
    assert t[..0] == [];
    FlatMapProbability(Always(v), g, w);
    TimesFacts(ProbabilityAt(g(v), w), 1.0);
  }

  //---- Chained flatMaps: an instance where they do not associate ----//

  /** Two objects with the same `toHash` result, and so one outcome to
      aleatory.js, that differ in state. */
  const First := Hashed("a", "s1")
  const Second := Hashed("a", "s2")

  /** The table `uniform([1, 2])` builds. */
  function Halves(): Aleatory
  {
    assert Key(Num(1)) != Key(Num(2)) by {
      NumKeyInjective(1, 2);
    }
    Aleatory([Item(Num(1), 0.5), Item(Num(2), 0.5)])
  }

  /** Sends 1 to `always(First)` and everything else to `always(Second)`. */
  function Split(x: Value): Aleatory
  {
    if x == Num(1) then Always(First) else Always(Second)
  }

  /** Tells the two representatives apart: 10 for `First`, 20 otherwise. */
  function Pick(x: Value): Aleatory
  {
    if x == First then Always(Num(10)) else Always(Num(20))
  }

  lemma BindTwo(a: Item, b: Item, g: Value -> Aleatory)
    ensures Bind([a, b], g) == Scaled(g(a.value).content, a.probability) + Scaled(g(b.value).content, b.probability)
  {
    var sa := Scaled(g(a.value).content, a.probability);
    assert [a, b][..1] == [a];
    assert [a][..0] == [];
    assert Bind([a], g) == [] + sa;
    assert [] + sa == sa;
  }

  lemma ScaledOne(v: Value, p: real, c: real)
    ensures Scaled([Item(v, p)], c) == [Item(v, Times(p, c))]
  {
    assert [Item(v, p)][..0] == [];
  }

  /** Two contributions with one key end in one entry holding the second
      value and the summed probability. */
  lemma AddAllTwin(x: Item, y: Item)
    requires Key(x.value) == Key(y.value)
    ensures AddAll([], [x, y]) == [Item(y.value, y.probability + x.probability)]
  {
    assert [x, y][..1] == [x];
    assert [x][..0] == [];
    assert AddAll([], [x]) == [x];
    assert Find([x], Key(y.value)) == Some(0);
  }

  lemma SplitImages()
    ensures Split(Num(1)).content == [Item(First, 1.0)]
    ensures Split(Num(2)).content == [Item(Second, 1.0)]
  {
    NumKeyInjective(1, 2);
    AlwaysContent(First);
    AlwaysContent(Second);
  }

  lemma HalvesContributions()
    ensures Bind(Halves().content, Split) == [Item(First, 0.5), Item(Second, 0.5)]
  {
    var t := Halves().content;
    SplitImages();
    BindTwo(t[0], t[1], Split);
    ScaledOne(First, 1.0, 0.5);
    ScaledOne(Second, 1.0, 0.5);
    TimesFacts(1.0, 0.5);
  }

  /** The inner `flatMap` merges both contributions into one entry that
      keeps the later representative. */
  lemma HalvesSplit()
    ensures FlatMap(Halves(), Split).content == [Item(Second, 1.0)]
  {
    HalvesContributions();
    KeyInjective(First, Second);
    AddAllTwin(Item(First, 0.5), Item(Second, 0.5));
  }

  lemma PickAtTen(x: Value)
    ensures ProbabilityAt(Pick(x), Num(10)) == if x == First then 1.0 else 0.0
  {
    SameNum(10, 10);
    SameNum(20, 10);
    AlwaysProbability(Num(10), Num(10));
    AlwaysProbability(Num(20), Num(10));
  }

  lemma BindMassTwo(a: Item, b: Item, h: Value -> Aleatory, w: Value)
    ensures BindMass([a, b], h, w) == Weigh(a, h, w) + Weigh(b, h, w)
  {
    assert [a] == [] + [a];
    assert [a, b] == [a] + [b];
    SnocBindMass([], a, h, w);
    SnocBindMass([a], b, h, w);
  }

  /** Chained: `Pick` sees only `Second`, so 10 is impossible. */
  lemma ChainedAtTen()
    ensures ProbabilityAt(FlatMap(FlatMap(Halves(), Split), Pick), Num(10)) == 0.0
  {
    HalvesSplit();
    var inner := FlatMap(Halves(), Split);
    FlatMapProbability(inner, Pick, Num(10));
    assert inner.content == [] + [Item(Second, 1.0)];
    SnocBindMass([], Item(Second, 1.0), Pick, Num(10));
    PickAtTen(Second);
    TimesFacts(0.0, 1.0);
  }

  lemma NestedImage(x: Value)
    ensures ProbabilityAt(FlatMap(Split(x), Pick), Num(10)) == if x == Num(1) then 1.0 else 0.0
  {
    if x == Num(1) {
      FlatMapLeftIdentity(First, Pick, Num(10));
      PickAtTen(First);
    } else {
      FlatMapLeftIdentity(Second, Pick, Num(10));
      PickAtTen(Second);
    }
  }

  lemma BindMassHalves(h: Value -> Aleatory, w: Value)
    ensures BindMass(Halves().content, h, w)
         == Times(ProbabilityAt(h(Num(1)), w), 0.5) + Times(ProbabilityAt(h(Num(2)), w), 0.5)
  {
    var t := Halves().content;
    BindMassTwo(t[0], t[1], h, w);
  }

  /** Nested: the image of 1 reaches 10 through `First`. */
  lemma NestedAtTen()
    ensures ProbabilityAt(FlatMap(Halves(), x => FlatMap(Split(x), Pick)), Num(10)) == 0.5
  {
    var gh := x => FlatMap(Split(x), Pick);
    FlatMapProbability(Halves(), gh, Num(10));
    BindMassHalves(gh, Num(10));
    NestedImage(Num(1));
    NestedImage(Num(2));
    assert Num(2) != Num(1) by {
      NumKeyInjective(1, 2);
    }
    var one, two := ProbabilityAt(gh(Num(1)), Num(10)), ProbabilityAt(gh(Num(2)), Num(10));
    assert one == 1.0 && two == 0.0;
    TimesFacts(1.0, 0.5);
    TimesFacts(0.0, 0.5);
  }

  /** `flatMap(flatMap(d, g), h)` and `flatMap(d, x => flatMap(g(x), h))`
      differ when `h` separates values of one key: the first keeps only the
      last representative, `Second`, of the key both images of `Halves`
      share. */
  lemma FlatMapNotAssociative()
    ensures Same(First, Second)
    ensures ProbabilityAt(Pick(First), Num(10)) != ProbabilityAt(Pick(Second), Num(10))
    ensures ProbabilityAt(FlatMap(FlatMap(Halves(), Split), Pick), Num(10))
         != ProbabilityAt(FlatMap(Halves(), x => FlatMap(Split(x), Pick)), Num(10))
  {
    KeyInjective(First, Second);
    PickAtTen(First);
    PickAtTen(Second);
    ChainedAtTen();
    NestedAtTen();
  }

  //---- dice ----//

  /** `[1, 2, ..., n]`, empty when `n <= 0`. */
  function Faces(n: int): (r: seq<Value>)
    ensures |r| == if n <= 0 then 0 else n
  {
    if n <= 0 then [] else Faces(n - 1) + [Num(n)]
  }

  /** `dice` (aleatory.js:369-375). */
  function Dice(n: int): Option<Aleatory>
  {
    Uniform(Faces(n))
  }

  lemma SameNum(i: nat, k: nat)
    ensures Same(Num(i), Num(k)) <==> i == k
  {
    KeyInjective(Num(i), Num(k));
    NumKeyInjective(i, k);
  }

  lemma {:induction false} FacesOccurrences(n: int, k: nat)
    ensures Occurrences(Faces(n), Num(k)) == if 1 <= k <= n then 1 else 0
  {
    if n > 0 {
      var f := Faces(n);
      assert f[..|f| - 1] == Faces(n - 1);
      FacesOccurrences(n - 1, k);
      SameNum(n, k);
    }
  }

  /** `dice(n)` is `undefined` for `n <= 0`, otherwise a proper distribution
      giving `1/n` to each of `1..n` and 0 to every other number. */
  lemma DiceProbability(n: int, k: nat)
    ensures Dice(n).None? <==> n <= 0
    ensures n > 0 ==> Valid(Dice(n).value)
    ensures n > 0 ==> ProbabilityAt(Dice(n).value, Num(k)) == if 1 <= k <= n then Ratio(1.0, n as real) else 0.0
  {
    UniformValid(Faces(n));
    if n > 0 {
      UniformProbability(Faces(n), Num(k));
      FacesOccurrences(n, k);
      RatioFacts(1.0, n as real);
    }
  }

  lemma {:induction false} FacesMiss(n: int, v: Value)
    requires forall k: nat :: 1 <= k <= n ==> !Same(v, Num(k))
    ensures Occurrences(Faces(n), v) == 0
    decreases n
  {
    if n > 0 {
      assert Faces(n)[..n - 1] == Faces(n - 1);
      FacesMiss(n - 1, v);
      KeyInjective(v, Num(n));
      KeyInjective(Num(n), v);
    }
  }

  /** Any outcome no face denotes, a number outside `1..n` or a value of
      another type alike, has probability 0 under `dice(n)`. */
  lemma DiceOutside(n: int, v: Value)
    requires n > 0
    requires forall k: nat :: 1 <= k <= n ==> !Same(v, Num(k))
    ensures ProbabilityAt(Dice(n).value, v) == 0.0
  {
    var xs := Faces(n);
    assert Occurrences(xs, v) == 0 by {
      FacesMiss(n, v);
    }
    assert ProbabilityAt(Dice(n).value, v) == Ratio(0.0, n as real) by {
      UniformProbability(xs, v);
    }
    RatioFacts(0.0, n as real);
  }

  //---- weighted ----//

  /** An element of `weighted`'s argument, `{value, weight}`. */
  datatype Weight = Weight(value: Value, weight: real)

  /** The first loop of `weighted` (aleatory.js:320-338): `None` as soon as a
      weight is negative, otherwise the accumulated table and `total`. Zero
      weights are skipped. */
  function Accumulate(ws: seq<Weight>): Option<(Table, real)>
  {
    if |ws| == 0 then Some(([], 0.0))
    else
      var w := ws[|ws| - 1];
      match Accumulate(ws[..|ws| - 1])
      case None => None
      case Some(acc) =>
        if w.weight < 0.0 then None
        else if w.weight == 0.0 then Some(acc)
        else Some((Add(acc.0, Item(w.value, w.weight)), acc.1 + w.weight))
  }

  /** `weighted` (aleatory.js:311-349): `undefined` for no elements, for a
      negative weight or when no weight is positive; otherwise the
      accumulated weights divided by their total. */
  function Weighted(ws: seq<Weight>): Option<Aleatory>
  {
    if |ws| == 0 then None
    else
      match Accumulate(ws)
      case None => None
      case Some((t, total)) =>
        if !(total > 0.0) then None else Some(Aleatory(Normalize(t, total)))
  }

  predicate NoNegative(ws: seq<Weight>)
  {
    forall i :: 0 <= i < |ws| ==> ws[i].weight >= 0.0
  }

  /** The sum of all weights. */
  function TotalWeight(ws: seq<Weight>): real
  {
    if |ws| == 0 then 0.0 else TotalWeight(ws[..|ws| - 1]) + ws[|ws| - 1].weight
  }

  /** The sum of the weights of the elements denoting the outcome `v`. */
  function WeightAt(ws: seq<Weight>, v: Value): real
  {
    if |ws| == 0 then 0.0
    else WeightAt(ws[..|ws| - 1], v) + (if Same(ws[|ws| - 1].value, v) then ws[|ws| - 1].weight else 0.0)
  }

  /** The elements of positive weight, as items. */
  function Draws(ws: seq<Weight>): seq<Item>
  {
    if |ws| == 0 then []
    else
      var w := ws[|ws| - 1];
      if w.weight > 0.0 then Draws(ws[..|ws| - 1]) + [Item(w.value, w.weight)] else Draws(ws[..|ws| - 1])
  }

  lemma NoNegativeSnoc(ws: seq<Weight>)
    requires |ws| > 0
    ensures NoNegative(ws) <==> NoNegative(ws[..|ws| - 1]) && ws[|ws| - 1].weight >= 0.0
  {
    var n := |ws| - 1;
    if NoNegative(ws[..n]) && ws[n].weight >= 0.0 {
      forall i | 0 <= i < |ws|
        ensures ws[i].weight >= 0.0
      {
        if i < n {
          assert ws[..n][i] == ws[i];
        }
      }
    }
    if NoNegative(ws) {
      forall i | 0 <= i < n
        ensures ws[..n][i].weight >= 0.0
      {
        assert ws[..n][i] == ws[i];
      }
    }
  }

  /** A negative weight makes the loop return `undefined`. */
  lemma {:induction false} AccumulateNegative(ws: seq<Weight>)
    ensures Accumulate(ws).None? <==> !NoNegative(ws)
  {
    if |ws| > 0 {
      AccumulateNegative(ws[..|ws| - 1]);
      NoNegativeSnoc(ws);
    }
  }

  /** Otherwise the loop is `AddAll` over the positive weights, with the
      plain sum of the weights as its total. */
  lemma {:induction false} AccumulateAgrees(ws: seq<Weight>)
    requires NoNegative(ws)
    ensures Accumulate(ws).Some?
    ensures Accumulate(ws).value.0 == AddAll([], Draws(ws))
    ensures Accumulate(ws).value.1 == TotalWeight(ws)
  {
    if |ws| > 0 {
      var n := |ws| - 1;
      var w := ws[n];
      NoNegativeSnoc(ws);
      AccumulateAgrees(ws[..n]);
      var acc := Accumulate(ws[..n]).value;
      var d := Draws(ws[..n]);
      if w.weight > 0.0 {
        assert Accumulate(ws) == Some((Add(acc.0, Item(w.value, w.weight)), acc.1 + w.weight));
        var e := Draws(ws);
        assert e == d + [Item(w.value, w.weight)];
        assert e[..|e| - 1] == d;
        assert AddAll([], e) == Add(AddAll([], d), Item(w.value, w.weight));
      } else {
        assert Accumulate(ws) == Some(acc);
        assert Draws(ws) == d;
      }
    }
  }

  lemma {:induction false} DrawsMassAt(ws: seq<Weight>, v: Value)
    requires NoNegative(ws)
    ensures MassAt(Draws(ws), Key(v)) == WeightAt(ws, v)
  {
    if |ws| > 0 {
      var n := |ws| - 1;
      var w := ws[n];
      var d := Draws(ws[..n]);
      NoNegativeSnoc(ws);
      DrawsMassAt(ws[..n], v);
      var hit := Same(w.value, v);
      KeyInjective(w.value, v);
      assert hit <==> Key(w.value) == Key(v);
      assert WeightAt(ws, v) == WeightAt(ws[..n], v) + (if hit then w.weight else 0.0);
      if w.weight > 0.0 {
        assert Draws(ws) == d + [Item(w.value, w.weight)];
        SnocMassAt(d, Item(w.value, w.weight), Key(v));
        assert MassAt(Draws(ws), Key(v)) == MassAt(d, Key(v)) + (if hit then w.weight else 0.0);
      } else {
        assert w.weight == 0.0;
        assert Draws(ws) == d;
      }
    }
  }

  lemma {:induction false} DrawsMass(ws: seq<Weight>)
    requires NoNegative(ws)
    ensures Mass(Draws(ws)) == TotalWeight(ws)
  {
    if |ws| > 0 {
      var n := |ws| - 1;
      var w := ws[n];
      NoNegativeSnoc(ws);
      DrawsMass(ws[..n]);
      if w.weight > 0.0 {
        SnocMass(Draws(ws[..n]), Item(w.value, w.weight));
      }
    }
  }

  lemma {:induction false} DrawsPositive(ws: seq<Weight>)
    ensures Positive(Draws(ws))
  {
    if |ws| > 0 {
      DrawsPositive(ws[..|ws| - 1]);
    }
  }

  /** Every drawn item comes from an element of positive weight. */
  lemma {:induction false} DrawsFrom(ws: seq<Weight>, x: Value)
    requires x in Values(Draws(ws))
    ensures exists i :: 0 <= i < |ws| && ws[i].value == x && ws[i].weight > 0.0
  {
    var n := |ws| - 1;
    var w := ws[n];
    var d := Draws(ws[..n]);
    if w.weight > 0.0 && x == w.value {
      assert ws[n].value == x;
    } else {
      var j :| 0 <= j < |Draws(ws)| && Values(Draws(ws))[j] == x;
      if w.weight > 0.0 {
        assert Draws(ws) == d + [Item(w.value, w.weight)];
        assert j < |d|;
      }
      assert Values(d)[j] == x;
      DrawsFrom(ws[..n], x);
      var i :| 0 <= i < n && ws[..n][i].value == x && ws[..n][i].weight > 0.0;
      assert ws[i] == ws[..n][i];
    }
  }

  /** With no negative weight, the total is 0 exactly when every weight is. */
  lemma {:induction false} TotalWeightZero(ws: seq<Weight>)
    requires NoNegative(ws)
    ensures TotalWeight(ws) >= 0.0
    ensures TotalWeight(ws) == 0.0 <==> forall i :: 0 <= i < |ws| ==> ws[i].weight == 0.0
  {
    if |ws| > 0 {
      var n := |ws| - 1;
      NoNegativeSnoc(ws);
      TotalWeightZero(ws[..n]);
      if TotalWeight(ws) == 0.0 {
        forall i | 0 <= i < |ws|
          ensures ws[i].weight == 0.0
        {
          if i < n {
            assert ws[..n][i] == ws[i];
          }
        }
      }
      if forall i :: 0 <= i < |ws| ==> ws[i].weight == 0.0 {
        forall i | 0 <= i < n
          ensures ws[..n][i].weight == 0.0
        {
          assert ws[..n][i] == ws[i];
        }
      }
    }
  }

  /** What `weighted` returns when it is defined. */
  lemma WeightedContent(ws: seq<Weight>)
    requires Weighted(ws).Some?
    ensures NoNegative(ws) && TotalWeight(ws) > 0.0
    ensures Weighted(ws).value.content == Normalize(AddAll([], Draws(ws)), TotalWeight(ws))
  {
    AccumulateNegative(ws);
    AccumulateAgrees(ws);
  }

  /** `weighted` is `undefined` exactly for an empty list, a negative weight,
      or weights that are all 0. */
  lemma WeightedUndefined(ws: seq<Weight>)
    ensures Weighted(ws).None? <==>
      |ws| == 0 || !NoNegative(ws) || forall i :: 0 <= i < |ws| ==> ws[i].weight == 0.0
  {
    AccumulateNegative(ws);
    if NoNegative(ws) {
      AccumulateAgrees(ws);
      TotalWeightZero(ws);
    }
  }

  /** Each outcome has probability (sum of its weights) / (sum of all
      weights). */
  lemma WeightedProbability(ws: seq<Weight>, v: Value)
    requires Weighted(ws).Some?
    ensures TotalWeight(ws) > 0.0
    ensures ProbabilityAt(Weighted(ws).value, v) == Ratio(WeightAt(ws, v), TotalWeight(ws))
  {
    WeightedContent(ws);
    var t := AddAll([], Draws(ws));
    var total := TotalWeight(ws);
    ProbabilityAtMass(Weighted(ws).value, v);
    NormalizeMassAt(t, total, Key(v));
    AddAllMassAt([], Draws(ws), Key(v));
    DrawsMassAt(ws, v);
  }

  /** An element of weight 0 never enters the domain: every value of the
      domain comes with a positive weight. */
  lemma WeightedDomain(ws: seq<Weight>, x: Value)
    requires Weighted(ws).Some? && x in Domain(Weighted(ws).value)
    ensures exists i :: 0 <= i < |ws| && ws[i].value == x && ws[i].weight > 0.0
  {
    WeightedContent(ws);
    var t := AddAll([], Draws(ws));
    var r := Weighted(ws).value.content;
    var j :| 0 <= j < |r| && r[j].value == x;
    assert r[j].value == t[j].value;
    assert Domain(Aleatory(t))[j] == x;
    AddAllValues(Draws(ws), x);
    DrawsFrom(ws, x);
  }

  lemma WeightedValid(ws: seq<Weight>)
    requires Weighted(ws).Some?
    ensures Valid(Weighted(ws).value)
  {
    WeightedContent(ws);
    var t := AddAll([], Draws(ws));
    var total := TotalWeight(ws);
    NormalizeMass(t, total);
    AddAllMass([], Draws(ws));
    DrawsMass(ws);
    RatioFacts(total, total);
    DrawsPositive(ws);
    AddAllPositive([], Draws(ws));
    NormalizePositive(t, total);
  }

  //---- trials ----//

  /** The entries for `0..m - 1` successes (aleatory.js:435-438). */
  function Counts(n: nat, p: real, q: real, m: nat): (r: seq<Item>)
    requires m <= n + 1
    ensures |r| == m
  {
    if m == 0 then [] else Counts(n, p, q, m - 1) + [Item(Num(m - 1), Entry(n, p, q, m - 1))]
  }

  lemma {:induction false} CountsValue(n: nat, p: real, q: real, m: nat, i: nat)
    requires m <= n + 1 && i < m
    ensures Counts(n, p, q, m)[i].value == Num(i)
  {
    if i < m - 1 {
      CountsValue(n, p, q, m - 1, i);
    }
  }

  /** Each count is stored under its own key. */
  lemma CountsKeyed(n: nat, p: real, q: real, m: nat)
    requires m <= n + 1
    ensures WellKeyed(Counts(n, p, q, m))
  {
    var r := Counts(n, p, q, m);
    forall i, j | 0 <= i < j < |r|
      ensures Key(r[i].value) != Key(r[j].value)
    {
      CountsValue(n, p, q, m, i);
      CountsValue(n, p, q, m, j);
      NumKeyInjective(i, j);
    }
  }

  /** The table `trials` builds for `n` trials of success probability `p`. */
  function BinomialTable(n: nat, p: real, q: real): Table
  {
    CountsKeyed(n, p, q, n + 1);
    Counts(n, p, q, n + 1)
  }

  /** `trials` (aleatory.js:392-441). `p` is the probability of a truthy
      outcome of `d`. */
  function Trials(n: int, d: Aleatory): Option<Aleatory>
  {
    if n < 0 then None
    else if n == 0 then Some(Always(Num(0)))
    else
      var p := Probability(d, Truthy);
      var q := 1.0 - p;
      if q == 1.0 then Some(Always(Num(0)))
      else if p == 1.0 then Some(Always(Num(n)))
      else Some(Aleatory(BinomialTable(n, p, q)))
  }

  lemma {:induction false} CountsMassAt(n: nat, p: real, q: real, m: nat, k: nat)
    requires m <= n + 1
    ensures MassAt(Counts(n, p, q, m), Key(Num(k))) == if k < m then Term(n, p, q, k) else 0.0
  {
    if m > 0 {
      var i := m - 1;
      CountsMassAt(n, p, q, i, k);
      SnocMassAt(Counts(n, p, q, i), Item(Num(i), Entry(n, p, q, i)), Key(Num(k)));
      NumKeyInjective(i, k);
      EntryIsTerm(n, p, q, i);
    }
  }

  lemma {:induction false} CountsMass(n: nat, p: real, q: real, m: nat)
    requires m <= n + 1
    ensures Mass(Counts(n, p, q, m)) == TermSum(n, p, q, m)
  {
    if m > 0 {
      var i := m - 1;
      CountsMass(n, p, q, i);
      SnocMass(Counts(n, p, q, i), Item(Num(i), Entry(n, p, q, i)));
      EntryIsTerm(n, p, q, i);
    }
  }

  lemma {:induction false} CountsPositive(n: nat, p: real, q: real, m: nat)
    requires m <= n + 1 && p > 0.0 && q > 0.0
    ensures Positive(Counts(n, p, q, m))
  {
    if m > 0 {
      var i := m - 1;
      CountsPositive(n, p, q, i);
      EntryIsTerm(n, p, q, i);
      TermPositive(n, p, q, i);
    }
  }

  /** `always(v)` as a table: `v` alone, with probability 1. */
  lemma AlwaysMassAt(v: Value, k: nat, c: nat)
    requires v == Num(c)
    ensures ProbabilityAt(Always(v), Num(k)) == if k == c then 1.0 else 0.0
  {
    AlwaysProbability(v, Num(k));
    SameNum(c, k);
  }

  /** `trials` is `undefined` exactly for a negative `n`. Otherwise, with
      `p` the probability of a truthy outcome, `k` successes have
      probability `C(n, k) p^k (1 - p)^(n - k)`: the general formula also
      covers the shortcuts `n == 0`, `p == 0` and `p == 1`. */
  lemma TrialsProbability(n: int, d: Aleatory, k: nat)
    ensures Trials(n, d).None? <==> n < 0
    ensures n >= 0 ==>
      var p := Probability(d, Truthy);
      ProbabilityAt(Trials(n, d).value, Num(k)) == Term(n, p, 1.0 - p, k)
  {
    if n >= 0 {
      var p := Probability(d, Truthy);
      var q := 1.0 - p;
      var r := Trials(n, d).value;
      if n == 0 {
        assert r == Always(Num(0));
        AlwaysMassAt(Num(0), k, 0);
        ChooseEdges(0, k);
      } else if q == 1.0 {
        assert r == Always(Num(0)) && p == 0.0;
        AlwaysMassAt(Num(0), k, 0);
        TermDegenerate(n, k);
      } else if p == 1.0 {
        assert r == Always(Num(n)) && q == 0.0;
        AlwaysMassAt(Num(n), k, n);
        TermDegenerate(n, k);
      } else {
        TrialsGeneral(n, d, k);
      }
    }
  }

  lemma TrialsGeneral(n: nat, d: Aleatory, k: nat)
    requires n > 0
    requires Probability(d, Truthy) != 0.0 && Probability(d, Truthy) != 1.0
    ensures
      var p := Probability(d, Truthy);
      ProbabilityAt(Trials(n, d).value, Num(k)) == Term(n, p, 1.0 - p, k)
  {
    var p := Probability(d, Truthy);
    var q := 1.0 - p;
    var t := BinomialTable(n, p, q);
    assert Trials(n, d).value.content == t;
    LookupIsMassAt(t, Key(Num(k)));
    CountsMassAt(n, p, q, n + 1, k);
    ChooseEdges(n, k);
  }

  /** For `n >= 0` the result always sums to 1, whatever `d`. */
  lemma TrialsMass(n: int, d: Aleatory)
    requires n >= 0
    ensures Mass(Trials(n, d).value.content) == 1.0
  {
    var p := Probability(d, Truthy);
    var q := 1.0 - p;
    var r := Trials(n, d).value;
    if n == 0 || q == 1.0 {
      assert r == Always(Num(0));
      AlwaysValid(Num(0));
    } else if p == 1.0 {
      assert r == Always(Num(n));
      AlwaysValid(Num(n));
    } else {
      assert r.content == Counts(n, p, q, n + 1);
      CountsMass(n, p, q, n + 1);
      TermsSumToOne(n, p, q);
    }
  }

  lemma TrialsPositive(n: int, d: Aleatory)
    requires n >= 0 && Valid(d)
    ensures Positive(Trials(n, d).value.content)
  {
    var p := Probability(d, Truthy);
    var q := 1.0 - p;
    var r := Trials(n, d).value;
    if n == 0 || q == 1.0 {
      assert r == Always(Num(0));
      AlwaysValid(Num(0));
    } else if p == 1.0 {
      assert r == Always(Num(n));
      AlwaysValid(Num(n));
    } else {
      ProbabilityBounds(d, Truthy);
      assert 0.0 < p < 1.0;
      CountsPositive(n, p, q, n + 1);
      assert Trials(n, d).value.content == Counts(n, p, q, n + 1);
    }
  }

  /** Trials of a proper distribution form a proper distribution. */
  lemma TrialsValid(n: int, d: Aleatory)
    requires n >= 0 && Valid(d)
    ensures Valid(Trials(n, d).value)
  {
    TrialsMass(n, d);
    TrialsPositive(n, d);
  }

  /** When both outcomes are possible the domain is `0, 1, ..., n`, in
      order. */
  lemma TrialsDomain(n: int, d: Aleatory, i: nat)
    requires n > 0 && 0.0 < Probability(d, Truthy) < 1.0 && i <= n
    ensures |Domain(Trials(n, d).value)| == n + 1
    ensures Domain(Trials(n, d).value)[i] == Num(i)
  {
    var p := Probability(d, Truthy);
    CountsValue(n, p, 1.0 - p, n + 1, i);
  }
}
