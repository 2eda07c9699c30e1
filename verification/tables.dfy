/** The `content` table of an Aleatory variable: an association from keys to
    `Item`s, in insertion order (the order in which a JavaScript object with
    non-index property names enumerates them), and the single update every
    accumulating loop of aleatory.js performs on it. */
module Tables {
  import opened Optional
  import opened Keys
  import opened Products

  /** `Item` (aleatory.js:30-38): a value and its probability. */
  datatype Item = Item(value: Value, probability: real)

  /** Property names of a JavaScript object are distinct. */
  predicate WellKeyed(t: seq<Item>)
  {
    forall i, j :: 0 <= i < j < |t| ==> Key(t[i].value) != Key(t[j].value)
  }

  /** A table: each entry is stored under the key of its own value, which is
      how every table of aleatory.js is filled. */
  type Table = t: seq<Item> | WellKeyed(t) witness []

  predicate Positive(t: seq<Item>)
  {
    forall i :: 0 <= i < |t| ==> t[i].probability > 0.0
  }

  /** An entry under a new key extends a table. */
  lemma SnocKeyed(t: seq<Item>, x: Item)
    requires WellKeyed(t)
    requires forall i :: 0 <= i < |t| ==> Key(t[i].value) != Key(x.value)
    ensures WellKeyed(t + [x])
  {
    var s := t + [x];
    forall i, j | 0 <= i < j < |s|
      ensures Key(s[i].value) != Key(s[j].value)
    {
      assert s[i] == t[i];
      if j < |t| {
        assert s[j] == t[j];
      }
    }
  }

  //---- Reference sums ----//

  /** Sum of all probabilities. */
  function Mass(t: seq<Item>): real
  {
    if |t| == 0 then 0.0 else Mass(t[..|t| - 1]) + t[|t| - 1].probability
  }

  /** Sum of the probabilities of the entries whose value has key `k`. */
  function MassAt(t: seq<Item>, k: string): real
  {
    if |t| == 0 then 0.0
    else MassAt(t[..|t| - 1], k) + (if Key(t[|t| - 1].value) == k then t[|t| - 1].probability else 0.0)
  }

  /** Sum of the probabilities of the entries whose value satisfies `pred`. */
  function MassWhere(t: seq<Item>, pred: Value -> bool): real
  {
    if |t| == 0 then 0.0
    else MassWhere(t[..|t| - 1], pred) + (if pred(t[|t| - 1].value) then t[|t| - 1].probability else 0.0)
  }

  //---- Lookup and update ----//

  /** The index of the entry stored under `k`, if any: `content[k]`. */
  function Find(t: seq<Item>, k: string): (r: Option<nat>)
    ensures r.Some? ==> r.value < |t| && Key(t[r.value].value) == k
    ensures r.None? ==> forall i :: 0 <= i < |t| ==> Key(t[i].value) != k
  {
    if |t| == 0 then None
    else if Key(t[|t| - 1].value) == k then Some(|t| - 1)
    else Find(t[..|t| - 1], k)
  }

  /** The probability stored under `k`, or 0 when there is none
      (`probabilityAt`, aleatory.js:242-248). */
  function Lookup(t: seq<Item>, k: string): real
  {
    match Find(t, k)
    case Some(i) => t[i].probability
    case None => 0.0
  }

  /** `newContent[getKey(v)] = new Item(v, p + alias.probability)`, or
      `new Item(v, p)` when no alias is stored: the accumulation step of
      `map`, `flatMap`, `combine`, `uniform` and `weighted`. An existing entry
      keeps its place and takes the most recent value as its representative. */
  function Add(t: Table, it: Item): Table
  {
    match Find(t, Key(it.value))
    case Some(i) => t[i := Item(it.value, it.probability + t[i].probability)]
    case None => t + [it]
  }

  /** Adds a sequence of contributions, first to last. */
  function AddAll(t: Table, cs: seq<Item>): Table
  {
    if |cs| == 0 then t else Add(AddAll(t, cs[..|cs| - 1]), cs[|cs| - 1])
  }

  /** The values of a sequence of items, in order. */
  function Values(t: seq<Item>): (r: seq<Value>)
    ensures |r| == |t|
  {
    seq(|t|, i requires 0 <= i < |t| => t[i].value)
  }

  /** Divides every probability by `total`, keeping the values. */
  function Normalize(t: seq<Item>, total: real): (r: seq<Item>)
    requires total != 0.0
    ensures |r| == |t|
    ensures forall i :: 0 <= i < |t| ==> r[i].value == t[i].value
    ensures WellKeyed(t) ==> WellKeyed(r)
  {
    if |t| == 0 then []
    else
      var last := t[|t| - 1];
      Normalize(t[..|t| - 1], total) + [Item(last.value, Ratio(last.probability, total))]
  }

  //---- Lemmas about the sums ----//

  lemma SnocMass(a: seq<Item>, x: Item)
    ensures Mass(a + [x]) == Mass(a) + x.probability
  {
    assert (a + [x])[..|a|] == a;
  }

  lemma SnocMassAt(a: seq<Item>, x: Item, k: string)
    ensures MassAt(a + [x], k) == MassAt(a, k) + (if Key(x.value) == k then x.probability else 0.0)
  {
    assert (a + [x])[..|a|] == a;
  }

  lemma SnocMassWhere(a: seq<Item>, x: Item, pred: Value -> bool)
    ensures MassWhere(a + [x], pred) == MassWhere(a, pred) + (if pred(x.value) then x.probability else 0.0)
  {
    assert (a + [x])[..|a|] == a;
  }

  lemma {:induction false} MassAppend(a: seq<Item>, b: seq<Item>)
    ensures Mass(a + b) == Mass(a) + Mass(b)
    decreases |b|
  {
    if |b| == 0 {
      assert a + b == a;
    } else {
      var b', x := b[..|b| - 1], b[|b| - 1];
      assert a + b == (a + b') + [x];
      assert b == b' + [x];
      SnocMass(a + b', x);
      SnocMass(b', x);
      MassAppend(a, b');
    }
  }

  lemma {:induction false} MassAtAppend(a: seq<Item>, b: seq<Item>, k: string)
    ensures MassAt(a + b, k) == MassAt(a, k) + MassAt(b, k)
    decreases |b|
  {
    if |b| == 0 {
      assert a + b == a;
    } else {
      var b', x := b[..|b| - 1], b[|b| - 1];
      assert a + b == (a + b') + [x];
      assert b == b' + [x];
      SnocMassAt(a + b', x, k);
      SnocMassAt(b', x, k);
      MassAtAppend(a, b', k);
    }
  }

  lemma {:induction false} MassWhereAppend(a: seq<Item>, b: seq<Item>, pred: Value -> bool)
    ensures MassWhere(a + b, pred) == MassWhere(a, pred) + MassWhere(b, pred)
    decreases |b|
  {
    if |b| == 0 {
      assert a + b == a;
    } else {
      var b', x := b[..|b| - 1], b[|b| - 1];
      assert a + b == (a + b') + [x];
      assert b == b' + [x];
      SnocMassWhere(a + b', x, pred);
      SnocMassWhere(b', x, pred);
      MassWhereAppend(a, b', pred);
    }
  }

  /** No entry under `k` contributes nothing at `k`. */
  lemma {:induction false} MassAtAbsent(t: seq<Item>, k: string)
    requires forall i :: 0 <= i < |t| ==> Key(t[i].value) != k
    ensures MassAt(t, k) == 0.0
  {
    if |t| > 0 {
      MassAtAbsent(t[..|t| - 1], k);
    }
  }

  /** In a table, the mass at an entry's key is that entry's probability. */
  lemma {:induction false} MassAtUnique(t: Table, i: nat)
    requires i < |t|
    ensures MassAt(t, Key(t[i].value)) == t[i].probability
  {
    var n := |t| - 1;
    var k := Key(t[i].value);
    if i == n {
      MassAtAbsent(t[..n], k);
    } else {
      MassAtUnique(t[..n], i);
    }
  }

  /** Looking a key up in a table gives the mass stored under it. */
  lemma LookupIsMassAt(t: Table, k: string)
    ensures Lookup(t, k) == MassAt(t, k)
  {
    match Find(t, k)
    case Some(i) => MassAtUnique(t, i);
    case None => MassAtAbsent(t, k);
  }

  /** Replacing one entry moves the total by the difference... */
  lemma {:induction false} MassUpdate(t: seq<Item>, i: nat, x: Item)
    requires i < |t|
    ensures Mass(t[i := x]) == Mass(t) - t[i].probability + x.probability
  {
    var n := |t| - 1;
    assert t == t[..n] + [t[n]];
    SnocMass(t[..n], t[n]);
    if i == n {
      assert t[i := x] == t[..n] + [x];
      SnocMass(t[..n], x);
    } else {
      assert t[i := x] == t[..n][i := x] + [t[n]];
      SnocMass(t[..n][i := x], t[n]);
      MassUpdate(t[..n], i, x);
    }
  }

  /** ... and, when the new entry has the old one's key, the mass at that
      key. */
  lemma {:induction false} MassAtUpdate(t: seq<Item>, i: nat, x: Item, k: string)
    requires i < |t| && Key(x.value) == Key(t[i].value)
    ensures MassAt(t[i := x], k) ==
      MassAt(t, k) + (if Key(x.value) == k then x.probability - t[i].probability else 0.0)
  {
    var n := |t| - 1;
    assert t == t[..n] + [t[n]];
    SnocMassAt(t[..n], t[n], k);
    if i == n {
      assert t[i := x] == t[..n] + [x];
      SnocMassAt(t[..n], x, k);
    } else {
      assert t[i := x] == t[..n][i := x] + [t[n]];
      SnocMassAt(t[..n][i := x], t[n], k);
      MassAtUpdate(t[..n], i, x, k);
    }
  }

  /** One accumulation step adds the contribution to the mass at its key. */
  lemma AddMassAt(t: Table, it: Item, k: string)
    ensures MassAt(Add(t, it), k) == MassAt(t, k) + (if Key(it.value) == k then it.probability else 0.0)
  {
    match Find(t, Key(it.value))
    case Some(i) =>
      var x := Item(it.value, it.probability + t[i].probability);
      assert Add(t, it) == t[i := x];
      MassAtUpdate(t, i, x, k);
      if Key(it.value) == k {
        assert MassAt(t[i := x], k) == MassAt(t, k) + (x.probability - t[i].probability);
      } else {
        assert MassAt(t[i := x], k) == MassAt(t, k);
      }
    case None =>
      assert Add(t, it) == t + [it];
      SnocMassAt(t, it, k);
  }

  /** One accumulation step adds the contribution to the total. */
  lemma AddMass(t: Table, it: Item)
    ensures Mass(Add(t, it)) == Mass(t) + it.probability
  {
    match Find(t, Key(it.value))
    case Some(i) =>
      var x := Item(it.value, it.probability + t[i].probability);
      assert Add(t, it) == t[i := x];
      MassUpdate(t, i, x);
    case None =>
      assert Add(t, it) == t + [it];
      SnocMass(t, it);
  }

  /** Accumulating contributions into a table adds their mass key by key:
      colliding contributions are summed, never overwritten. */
  lemma {:induction false} AddAllMassAt(t: Table, cs: seq<Item>, k: string)
    ensures MassAt(AddAll(t, cs), k) == MassAt(t, k) + MassAt(cs, k)
    decreases |cs|
  {
    if |cs| > 0 {
      var n := |cs| - 1;
      AddAllMassAt(t, cs[..n], k);
      AddMassAt(AddAll(t, cs[..n]), cs[n], k);
    }
  }

  /** Accumulation conserves the total mass. */
  lemma {:induction false} AddAllMass(t: Table, cs: seq<Item>)
    ensures Mass(AddAll(t, cs)) == Mass(t) + Mass(cs)
    decreases |cs|
  {
    if |cs| > 0 {
      var n := |cs| - 1;
      AddAllMass(t, cs[..n]);
      AddMass(AddAll(t, cs[..n]), cs[n]);
    }
  }

  lemma PositiveAppend(a: seq<Item>, b: seq<Item>)
    requires Positive(a) && Positive(b)
    ensures Positive(a + b)
  {
    assert forall i :: 0 <= i < |a + b| ==> (a + b)[i] == (if i < |a| then a[i] else b[i - |a|]);
  }

  lemma AddPositive(t: Table, it: Item)
    requires Positive(t) && it.probability > 0.0
    ensures Positive(Add(t, it))
  {
  }

  /** Positive contributions accumulated into a positive table leave every
      probability positive. */
  lemma {:induction false} AddAllPositive(t: Table, cs: seq<Item>)
    requires Positive(t) && Positive(cs)
    ensures Positive(AddAll(t, cs))
    decreases |cs|
  {
    if |cs| > 0 {
      var n := |cs| - 1;
      AddAllPositive(t, cs[..n]);
      AddPositive(AddAll(t, cs[..n]), cs[n]);
    }
  }

  //---- Normalizing ----//

  /** Normalizing divides the total mass by `total`... */
  lemma {:induction false} NormalizeMass(t: seq<Item>, total: real)
    requires total != 0.0
    ensures Mass(Normalize(t, total)) == Ratio(Mass(t), total)
  {
    if |t| == 0 {
      RatioFacts(0.0, total);
    } else {
      var n := |t| - 1;
      var x := Item(t[n].value, Ratio(t[n].probability, total));
      assert Normalize(t, total) == Normalize(t[..n], total) + [x];
      NormalizeMass(t[..n], total);
      SnocMass(Normalize(t[..n], total), x);
      RatioAdd(Mass(t[..n]), t[n].probability, total);
    }
  }

  /** ... and the mass at every key. */
  lemma {:induction false} NormalizeMassAt(t: seq<Item>, total: real, k: string)
    requires total != 0.0
    ensures MassAt(Normalize(t, total), k) == Ratio(MassAt(t, k), total)
  {
    if |t| == 0 {
      RatioFacts(0.0, total);
    } else {
      var n := |t| - 1;
      var x := Item(t[n].value, Ratio(t[n].probability, total));
      assert Normalize(t, total) == Normalize(t[..n], total) + [x];
      NormalizeMassAt(t[..n], total, k);
      SnocMassAt(Normalize(t[..n], total), x, k);
      if Key(x.value) == k {
        RatioAdd(MassAt(t[..n], k), t[n].probability, total);
      }
    }
  }

  lemma NormalizePositive(t: seq<Item>, total: real)
    requires total > 0.0 && Positive(t)
    ensures Positive(Normalize(t, total))
  {
    var r := Normalize(t, total);
    forall i | 0 <= i < |t|
      ensures r[i].probability > 0.0
    {
      NormalizeAt(t, total, i);
      RatioFacts(t[i].probability, total);
    }
  }

  lemma {:induction false} NormalizeAt(t: seq<Item>, total: real, i: nat)
    requires total != 0.0 && i < |t|
    ensures Normalize(t, total)[i].probability == Ratio(t[i].probability, total)
  {
    var n := |t| - 1;
    if i < n {
      NormalizeAt(t[..n], total, i);
    }
  }

  /** With positive probabilities, masses are non-negative, each key's mass is
      at most the total, and the total vanishes only on the empty table. */
  lemma {:induction false} PositiveMass(t: seq<Item>, k: string)
    requires Positive(t)
    ensures 0.0 <= MassAt(t, k) <= Mass(t)
    ensures Mass(t) == 0.0 <==> |t| == 0
  {
    if |t| > 0 {
      PositiveMass(t[..|t| - 1], k);
    }
  }

  lemma {:induction false} PositiveMassWhere(t: seq<Item>, pred: Value -> bool)
    requires Positive(t)
    ensures 0.0 <= MassWhere(t, pred) <= Mass(t)
    ensures MassWhere(t, pred) == 0.0 <==> forall i :: 0 <= i < |t| ==> !pred(t[i].value)
  {
    if |t| > 0 {
      var n := |t| - 1;
      PositiveMassWhere(t[..n], pred);
      assert forall i :: 0 <= i < n ==> t[..n][i] == t[i];
    }
  }
}
