/** Values and their canonical keys (`getKey` in aleatory.js).

    A JavaScript value is modelled by what `getKey` can observe of it: whether
    it is `undefined` or `null`, the string its `toHash` method returns, the
    elements of an array, or its `typeof` tag together with its `toString`
    text. Keys are length-prefixed so that no two different outcomes share one;
    `KeyInjective` proves it. */
module Keys {

  /** The results of `typeof` that `getKey` can meet in its last branch
      (`undefined` is handled before it). */
  datatype TypeTag =
    | BooleanType
    | NumberType
    | BigIntType
    | StringType
    | SymbolType
    | FunctionType
    | ObjectType

  function TypeName(t: TypeTag): string
  {
    match t
    case BooleanType => "boolean"
    case NumberType => "number"
    case BigIntType => "bigint"
    case StringType => "string"
    case SymbolType => "symbol"
    case FunctionType => "function"
    case ObjectType => "object"
  }

  /** A value as far as the library can tell values apart. `Hashed` is an
      object with a `toHash` method; `state` stands for everything else about
      that object, which the library never looks at. `Plain` is any other
      value: a number, string, boolean or an object identified by `toString`. */
  datatype Value =
    | Undefined
    | Null
    | Hashed(hash: string, state: string)
    | Array(elements: seq<Value>)
    | Plain(tag: TypeTag, text: string)

  /** The JavaScript number `n`, for a non-negative integer `n`. Integers
      are unbounded here; a JavaScript number holds every integer exactly
      only below 2^53. */
  function Num(n: nat): Value
  {
    Plain(NumberType, Decimal(n))
  }

  /** JavaScript's boolean coercion on the modelled values: `undefined`,
      `null`, `false`, `0`, `-0` (whose text is "0"), `NaN`, `0n` and the empty
      string are falsy; everything else, objects and arrays included, is
      truthy. */
  predicate Truthy(v: Value)
  {
    match v
    case Undefined => false
    case Null => false
    case Hashed(_, _) => true
    case Array(_) => true
    case Plain(t, s) =>
      match t
      case BooleanType => s != "false"
      case NumberType => s != "0" && s != "NaN"
      case BigIntType => s != "0"
      case StringType => s != ""
      case _ => true
  }

  //---- Decimal text of a length ----//

  function DigitChar(d: nat): char
    requires d < 10
  {
    (48 + d) as char
  }

  /** The decimal digits of `n`. JavaScript writes a non-negative integer
      this way below 10^21, and in exponent notation (`1e+21`) from there
      on. */
  function Decimal(n: nat): string
  {
    if n < 10 then [DigitChar(n)] else Decimal(n / 10) + [DigitChar(n % 10)]
  }

  predicate NoColon(s: string)
  {
    forall i :: 0 <= i < |s| ==> s[i] != ':'
  }

  /** A suffix that begins a new field of a key, or ends it. */
  predicate Delimited(s: string)
  {
    |s| == 0 || s[0] == ':'
  }

  lemma {:induction false} DecimalDigits(n: nat)
    ensures |Decimal(n)| >= 1
    ensures forall i :: 0 <= i < |Decimal(n)| ==> '0' <= Decimal(n)[i] <= '9'
    ensures NoColon(Decimal(n))
    decreases n
  {
    if n >= 10 {
      DecimalDigits(n / 10);
      var d := Decimal(n / 10);
      assert Decimal(n) == d + [DigitChar(n % 10)];
      forall i | 0 <= i < |Decimal(n)|
        ensures '0' <= Decimal(n)[i] <= '9'
      {
        if i < |d| {
          assert Decimal(n)[i] == d[i];
        }
      }
    }
  }

  lemma {:induction false} DecimalLength(n: nat)
    ensures |Decimal(n)| == 1 <==> n < 10
  {
    if n >= 10 {
      DecimalDigits(n / 10);
    }
  }

  lemma {:induction false} DecimalInjective(a: nat, b: nat)
    ensures Decimal(a) == Decimal(b) <==> a == b
    decreases a
  {
    if Decimal(a) == Decimal(b) {
      DecimalLength(a);
      DecimalLength(b);
      if a < 10 {
        assert DigitChar(a) == Decimal(a)[0] == Decimal(b)[0] == DigitChar(b);
        assert DigitChar(a) as int == 48 + a;
      } else {
        var da, db := Decimal(a / 10), Decimal(b / 10);
        assert Decimal(a) == da + [DigitChar(a % 10)];
        assert Decimal(b) == db + [DigitChar(b % 10)];
        assert |da| == |db|;
        assert da == Decimal(a)[..|da|] == Decimal(b)[..|db|] == db;
        assert DigitChar(a % 10) == Decimal(a)[|da|] == Decimal(b)[|db|] == DigitChar(b % 10);
        assert DigitChar(a % 10) as int == 48 + a % 10;
        DecimalInjective(a / 10, b / 10);
      }
    }
  }

  //---- getKey ----//

  /** `getKey` (aleatory.js:72-92). JavaScript concatenation is written here
      with its right operands grouped, which does not change the string. */
  function Key(v: Value): string
    decreases v, 1
  {
    match v
    case Undefined => "undefined"
    case Null => "null"
    case Hashed(h, _) => "hashed" + Field(h)
    case Array(xs) => "array" + (":" + (Decimal(|xs|) + Join(ElementKeys(v))))
    case Plain(t, s) => TypeName(t) + Field(s)
  }

  /** ":" + s.length + ":" + s, the length-prefixed text of a hash or of a
      `toString` result. The length counted here is the number of
      characters of `s`, where JavaScript counts UTF-16 code units. */
  function Field(s: string): string
  {
    ":" + (Decimal(|s|) + (":" + s))
  }

  /** The keys of the elements of an array, in order. */
  function ElementKeys(v: Value): (ks: seq<string>)
    requires v.Array?
    ensures |ks| == |v.elements|
    decreases v, 0
  {
    seq(|v.elements|, i requires 0 <= i < |v.elements| => Key(v.elements[i]))
  }

  /** ":" + k for each k, as the loop of aleatory.js:85-87 appends them. */
  function Join(ks: seq<string>): string
  {
    if |ks| == 0 then "" else ":" + (ks[0] + Join(ks[1..]))
  }

  /** The part of a key before its first colon. */
  function Word(v: Value): string
  {
    match v
    case Undefined => "undefined"
    case Null => "null"
    case Hashed(_, _) => "hashed"
    case Array(_) => "array"
    case Plain(t, _) => TypeName(t)
  }

  /** Whether two values denote the same outcome: the independent definition
      of identity the keys are meant to implement. Hashed objects agree when
      their hashes do, arrays element by element, other values by type and
      text. */
  predicate Same(a: Value, b: Value)
  {
    match a
    case Undefined => b.Undefined?
    case Null => b.Null?
    case Hashed(h, _) => b.Hashed? && b.hash == h
    case Array(xs) =>
      b.Array? && |xs| == |b.elements| &&
      forall i :: 0 <= i < |xs| ==> Same(xs[i], b.elements[i])
    case Plain(t, s) => b.Plain? && b.tag == t && b.text == s
  }

  //---- Decoding a key ----//

  lemma CancelPrefix(a: string, x: string, b: string, y: string)
    requires a + x == b + y && |a| == |b|
    ensures a == b && x == y
  {
    assert a == (a + x)[..|a|];
    assert b == (b + y)[..|b|];
    assert x == (a + x)[|a|..];
    assert y == (b + y)[|b|..];
  }

  /** Position of the first colon of `s`, or `|s|`. */
  function FirstColon(s: string): nat
  {
    if |s| == 0 || s[0] == ':' then 0 else 1 + FirstColon(s[1..])
  }

  lemma {:induction false} RunLength(a: string, x: string)
    requires NoColon(a) && Delimited(x)
    ensures FirstColon(a + x) == |a|
    decreases |a|
  {
    if |a| > 0 {
      assert (a + x)[0] == a[0];
      assert (a + x)[1..] == a[1..] + x;
      RunLength(a[1..], x);
    } else {
      assert a + x == x;
    }
  }

  /** A colon-free run followed by a delimited suffix is read back uniquely. */
  lemma CancelRun(a: string, x: string, b: string, y: string)
    requires NoColon(a) && NoColon(b) && Delimited(x) && Delimited(y)
    requires a + x == b + y
    ensures a == b && x == y
  {
    RunLength(a, x);
    RunLength(b, y);
    CancelPrefix(a, x, b, y);
  }

  lemma {:induction false} JoinDelimited(ks: seq<string>, s: string)
    requires Delimited(s)
    ensures Delimited(Join(ks) + s)
  {
    if |ks| == 0 {
      assert Join(ks) + s == s;
    } else {
      assert (Join(ks) + s)[0] == ':';
    }
  }

  lemma JoinStep(ks: seq<string>, i: nat)
    requires i < |ks|
    ensures Join(ks[i..]) == ":" + (ks[i] + Join(ks[i + 1..]))
  {
    assert ks[i..][0] == ks[i];
    assert ks[i..][1..] == ks[i + 1..];
  }

  lemma WordNoColon(v: Value)
    ensures NoColon(Word(v))
  {
  }

  /** The part of a key after its word. */
  function Rest(v: Value): string
  {
    match v
    case Undefined => ""
    case Null => ""
    case Hashed(h, _) => Field(h)
    case Array(xs) => ":" + (Decimal(|xs|) + Join(ElementKeys(v)))
    case Plain(_, x) => Field(x)
  }

  lemma Assoc(a: string, b: string, c: string)
    ensures (a + b) + c == a + (b + c)
  {
  }

  /** A key followed by a delimited suffix splits into its word and a
      delimited rest. */
  lemma SplitWord(v: Value, s: string)
    requires Delimited(s)
    ensures Key(v) + s == Word(v) + (Rest(v) + s)
    ensures Delimited(Rest(v) + s)
  {
    assert Key(v) == Word(v) + Rest(v);
    Assoc(Word(v), Rest(v), s);
    if v.Undefined? || v.Null? {
      assert Rest(v) + s == s;
    } else {
      assert Rest(v)[0] == ':';
      assert (Rest(v) + s)[0] == ':';
    }
  }

  /** A length-prefixed field followed by a delimited suffix is read back
      uniquely. */
  lemma CancelField(x: string, s: string, y: string, s': string)
    requires Delimited(s) && Delimited(s')
    requires Field(x) + s == Field(y) + s'
    ensures x == y && s == s'
  {
    DecimalDigits(|x|);
    DecimalDigits(|y|);
    Assoc(":", Decimal(|x|) + (":" + x), s);
    Assoc(Decimal(|x|), ":" + x, s);
    Assoc(":", x, s);
    Assoc(":", Decimal(|y|) + (":" + y), s');
    Assoc(Decimal(|y|), ":" + y, s');
    Assoc(":", y, s');
    CancelPrefix(":", Decimal(|x|) + ((":" + x) + s), ":", Decimal(|y|) + ((":" + y) + s'));
    CancelRun(Decimal(|x|), ":" + (x + s), Decimal(|y|), ":" + (y + s'));
    DecimalInjective(|x|, |y|);
    CancelPrefix(":", x + s, ":", y + s');
    CancelPrefix(x, s, y, s');
  }

  /** Equal words mean the same kind of value (and the same `typeof` tag). */
  lemma WordKind(a: Value, b: Value)
    ensures Word(a) == Word(b) ==>
      (a.Undefined? <==> b.Undefined?) && (a.Null? <==> b.Null?) &&
      (a.Hashed? <==> b.Hashed?) && (a.Array? <==> b.Array?) &&
      (a.Plain? <==> b.Plain?) && (a.Plain? && b.Plain? ==> a.tag == b.tag)
  {
  }

  /** Equivalent values get equal keys. */
  lemma {:induction false} KeySame(a: Value, b: Value)
    requires Same(a, b)
    ensures Key(a) == Key(b)
    decreases a
  {
    match a
    case Array(xs) =>
      var ys := b.elements;
      forall i | 0 <= i < |xs|
        ensures Key(xs[i]) == Key(ys[i])
      {
        KeySame(xs[i], ys[i]);
      }
      assert ElementKeys(a) == ElementKeys(b);
    case _ =>
  }

  /** A key followed by a delimited suffix determines the outcome: keys form
      a prefix-free code. */
  lemma {:induction false} KeyDecode(a: Value, b: Value, s: string, s': string)
    requires Delimited(s) && Delimited(s')
    requires Key(a) + s == Key(b) + s'
    ensures Same(a, b)
    decreases a, 2
  {
    SplitWord(a, s);
    SplitWord(b, s');
    WordNoColon(a);
    WordNoColon(b);
    CancelRun(Word(a), Rest(a) + s, Word(b), Rest(b) + s');
    WordKind(a, b);
    match a
    case Undefined =>
    case Null =>
    case Hashed(h, _) =>
      CancelField(h, s, b.hash, s');
    case Plain(t, x) =>
      CancelField(x, s, b.text, s');
    case Array(xs) =>
      ArrayDecode(a, b, s, s');
  }

  /** The array case of `KeyDecode`: the length prefix fixes the number of
      elements, then each element key is decoded in turn. */
  lemma {:induction false} ArrayDecode(a: Value, b: Value, s: string, s': string)
    requires a.Array? && b.Array?
    requires Delimited(s) && Delimited(s')
    requires Rest(a) + s == Rest(b) + s'
    ensures Same(a, b)
    decreases a, 1
  {
    var xs, ys := a.elements, b.elements;
    var ks, ks' := ElementKeys(a), ElementKeys(b);
    DecimalDigits(|xs|);
    DecimalDigits(|ys|);
    JoinDelimited(ks, s);
    JoinDelimited(ks', s');
    Assoc(":", Decimal(|xs|) + Join(ks), s);
    Assoc(Decimal(|xs|), Join(ks), s);
    Assoc(":", Decimal(|ys|) + Join(ks'), s');
    Assoc(Decimal(|ys|), Join(ks'), s');
    CancelPrefix(":", Decimal(|xs|) + (Join(ks) + s), ":", Decimal(|ys|) + (Join(ks') + s'));
    CancelRun(Decimal(|xs|), Join(ks) + s, Decimal(|ys|), Join(ks') + s');
    DecimalInjective(|xs|, |ys|);
    assert ks[0..] == ks && ks'[0..] == ks';
    ElementsDecode(a, b, 0, s, s');
  }

  /** Decodes the element keys of two arrays from position `i` on. */
  lemma {:induction false} ElementsDecode(a: Value, b: Value, i: nat, s: string, s': string)
    requires a.Array? && b.Array? && |a.elements| == |b.elements| && i <= |a.elements|
    requires Delimited(s) && Delimited(s')
    requires Join(ElementKeys(a)[i..]) + s == Join(ElementKeys(b)[i..]) + s'
    ensures forall j :: i <= j < |a.elements| ==> Same(a.elements[j], b.elements[j])
    decreases a, 0, |a.elements| - i
  {
    var xs, ys := a.elements, b.elements;
    var ks, ks' := ElementKeys(a), ElementKeys(b);
    if i < |xs| {
      JoinStep(ks, i);
      JoinStep(ks', i);
      var t, t' := Join(ks[i + 1..]) + s, Join(ks'[i + 1..]) + s';
      Assoc(":", Key(xs[i]) + Join(ks[i + 1..]), s);
      Assoc(Key(xs[i]), Join(ks[i + 1..]), s);
      Assoc(":", Key(ys[i]) + Join(ks'[i + 1..]), s');
      Assoc(Key(ys[i]), Join(ks'[i + 1..]), s');
      CancelPrefix(":", Key(xs[i]) + t, ":", Key(ys[i]) + t');
      JoinDelimited(ks[i + 1..], s);
      JoinDelimited(ks'[i + 1..], s');
      KeyDecode(xs[i], ys[i], t, t');
      KeySame(xs[i], ys[i]);
      CancelPrefix(Key(xs[i]), t, Key(ys[i]), t');
      ElementsDecode(a, b, i + 1, s, s');
    }
  }

  /** Two values share a key exactly when they denote the same outcome. */
  lemma KeyInjective(a: Value, b: Value)
    ensures Key(a) == Key(b) <==> Same(a, b)
  {
    if Key(a) == Key(b) {
      assert Key(a) + "" == Key(b) + "";
      KeyDecode(a, b, "", "");
    }
    if Same(a, b) {
      KeySame(a, b);
    }
  }

  /** Distinct non-negative integers have distinct keys. */
  lemma NumKeyInjective(m: nat, n: nat)
    ensures Key(Num(m)) == Key(Num(n)) <==> m == n
  {
    KeyInjective(Num(m), Num(n));
    DecimalInjective(m, n);
  }
}
