/** The pieces of JavaScript's run-time behaviour that the roll-call component
    relies on: loosely typed fields, the `[].concat(x) || []` coercion, the
    insertion-ordered `Map`, `Array.prototype.join` and number formatting. */
module Js {

  datatype Option<+T> = None | Some(value: T)

  /** An exception the component lets escape. */
  datatype JsError = TypeError

  datatype Result<+T> = Ok(value: T) | Err(error: JsError)

  /** A field of a loosely typed record (configuration, or backend XML turned
      into JSON): absent (`undefined` or `null`), a bare value, or an array. */
  datatype Field<T> = Missing | Single(value: T) | Many(items: seq<T>)

  /** One element of an array built at run time: `undefined`, or a value. */
  datatype Slot<T> = Undefined | Defined(value: T)

  /** Each item wrapped as a defined array element, in order. */
  function Lift<T>(items: seq<T>): (r: seq<Slot<T>>)
    ensures |r| == |items|
    ensures forall i :: 0 <= i < |items| ==> r[i] == Defined(items[i])
  {
    if items == [] then [] else [Defined(items[0])] + Lift(items[1..])
  }

  /** The defined elements of an array, in order, with every `undefined` dropped. */
  function Strip<T>(s: seq<Slot<T>>): (r: seq<T>)
    ensures |r| <= |s|
    ensures forall i :: 0 <= i < |r| ==> Defined(r[i]) in s
  {
    if s == [] then []
    else
      match s[0]
      case Undefined => Strip(s[1..])
      case Defined(v) => [v] + Strip(s[1..])
  }

  lemma {:induction false} StripLift<T>(items: seq<T>)
    ensures Strip(Lift(items)) == items
  {
    if items != [] {
      assert Lift(items)[1..] == Lift(items[1..]);
      StripLift(items[1..]);
    }
  }

  /** The elements a field is meant to stand for: none when it is missing, one
      when it is a bare value, and the array's own items otherwise. */
  function Normalize<T>(x: Field<T>): seq<T>
  {
    match x
    case Missing => []
    case Single(v) => [v]
    case Many(items) => items
  }

  /** `[].concat(x)`: an array argument is spread into the new array element by
      element; any other argument, `undefined` included, becomes its single
      element. */
  function Concat<T>(x: Field<T>): (r: seq<Slot<T>>)
    ensures x.Missing? ==> r == [Undefined]
    ensures !x.Missing? ==> r == Lift(Normalize(x))
  {
    match x
    case Missing => [Undefined]
    case Single(v) => [Defined(v)]
    case Many(items) => Lift(items)
  }

  /** JavaScript truthiness of an array: an array is an object, and every
      object is truthy, the empty array included. */
  predicate ArrayIsTruthy<T>(a: seq<T>)
  {
    true
  }

  /** `[].concat(x) || []`, as the component writes it. */
  function ConcatOrEmpty<T>(x: Field<T>): (r: seq<Slot<T>>)
    ensures r == Concat(x)
  {
    var c := Concat(x);
    if ArrayIsTruthy(c) then c else []
  }

  /** A missing field does not coerce to the empty array: it becomes an array
      holding one `undefined`. */
  lemma MissingFieldGivesUndefinedElement<T>()
    ensures ConcatOrEmpty<T>(Missing) == [Undefined]
    ensures ConcatOrEmpty<T>(Missing) != []
  {
  }

  /** The coercion as written normalises every field except a missing one:
      dropping its `undefined` elements gives `Normalize`, and for a present
      field there is nothing to drop. */
  lemma {:induction false} NormalizeIsStrippedConcat<T>(x: Field<T>)
    ensures Normalize(x) == Strip(ConcatOrEmpty(x))
    ensures !x.Missing? <==> ConcatOrEmpty(x) == Lift(Normalize(x))
    ensures |Normalize(x)| == |ConcatOrEmpty(x)| - (if x.Missing? then 1 else 0)
  {
    StripLift(Normalize(x));
    if x.Missing? {
      assert ConcatOrEmpty(x) == [Undefined];
      assert Strip(ConcatOrEmpty(x)) == [];
    }
  }

  /** A JavaScript `Map<string, number>` restricted to what the component uses:
      `keys` is the insertion order, `values` the entries. */
  datatype CountMap = CountMap(keys: seq<string>, values: map<string, nat>) {

    /** Each key is listed once, and exactly the keys of `values` are listed. */
    ghost predicate Valid()
    {
      (forall i, j :: 0 <= i < j < |keys| ==> keys[i] != keys[j]) &&
      (forall k :: k in values <==> k in keys)
    }

    predicate Has(k: string)
    {
      k in values
    }

    function Get(k: string): nat
      requires Has(k)
    {
      values[k]
    }

    /** `map.set(k, v)`: a new key goes to the end of the order, an existing
        key keeps its place and takes the new value. */
    function Set(k: string, v: nat): CountMap
    {
      if k in values then CountMap(keys, values[k := v]) else CountMap(keys + [k], values[k := v])
    }

    /** `Array.from(map)`: the entries as `[key, value]` pairs in insertion order. */
    function Entries(): (r: seq<(string, nat)>)
      requires Valid()
      ensures |r| == |keys|
      ensures forall i :: 0 <= i < |keys| ==> r[i] == (keys[i], values[keys[i]])
    {
      seq(|keys|, i requires 0 <= i < |keys| => (keys[i], values[keys[i]]))
    }
  }

  /** Setting a key keeps a map well formed. */
  lemma SetKeepsValid(m: CountMap, k: string, v: nat)
    requires m.Valid()
    ensures m.Set(k, v).Valid()
  {
  }

  /** `map.set(k, v)` in terms of the order: every listed key keeps its
      position, a new key is listed last, `k` maps to `v` afterwards and no
      other key's value changes. */
  lemma SetPlacement(m: CountMap, k: string, v: nat)
    requires m.Valid()
    ensures var n := m.Set(k, v);
      |n.keys| == |m.keys| + (if m.Has(k) then 0 else 1) &&
      (forall i :: 0 <= i < |m.keys| ==> n.keys[i] == m.keys[i]) &&
      n.keys[|n.keys| - 1] == (if m.Has(k) then m.keys[|m.keys| - 1] else k) &&
      k in n.values && n.values[k] == v &&
      forall j :: j in m.values && j != k ==> j in n.values && n.values[j] == m.values[j]
  {
    if m.Has(k) {
      assert k in m.keys;
    }
  }

  /** `new Map()` */
  const EmptyCountMap: CountMap := CountMap([], map[])

  /** `parts.join(sep)` */
  function Join(parts: seq<string>, sep: string): string
  {
    if parts == [] then ""
    else if |parts| == 1 then parts[0]
    else parts[0] + sep + Join(parts[1..], sep)
  }

  /** `join` read left to right: each further part comes after one more
      separator. */
  lemma {:induction false} JoinSnoc(parts: seq<string>, p: string, sep: string)
    requires parts != []
    ensures Join(parts + [p], sep) == Join(parts, sep) + sep + p
  {
    var all := parts + [p];
    if |parts| == 1 {
      assert all[1..] == [p];
    } else {
      assert all[1..] == parts[1..] + [p];
      JoinSnoc(parts[1..], p, sep);
    }
  }

  /** Joining parts that are not empty gives the empty string exactly when
      there are no parts. */
  lemma {:induction false} JoinEmpty(parts: seq<string>, sep: string)
    requires forall i :: 0 <= i < |parts| ==> parts[i] != ""
    ensures Join(parts, sep) == "" <==> parts == []
  {
    if |parts| >= 2 {
      assert |Join(parts, sep)| >= |parts[0]| > 0;
    }
  }

  function DigitChar(d: nat): char
    requires d < 10
  {
    "0123456789"[d]
  }

  /** The decimal text of a non-negative number, as a template literal renders it. */
  function NumberText(n: nat): (r: string)
    ensures |r| >= 1
    ensures forall i :: 0 <= i < |r| ==> '0' <= r[i] <= '9'
    decreases n
  {
    if n < 10 then [DigitChar(n)] else NumberText(n / 10) + [DigitChar(n % 10)]
  }

  /** The number a string of decimal digits spells. */
  function DigitsValue(s: string): nat
    requires forall i :: 0 <= i < |s| ==> '0' <= s[i] <= '9'
  {
    if s == [] then 0 else DigitsValue(s[..|s| - 1]) * 10 + (s[|s| - 1] as int - '0' as int)
  }

  lemma DigitCharValue(d: nat)
    requires d < 10
    ensures DigitChar(d) as int - '0' as int == d
  {
    assert "0123456789"[d] as int == '0' as int + d by {
      if d == 0 {} else if d == 1 {} else if d == 2 {} else if d == 3 {} else if d == 4 {}
      else if d == 5 {} else if d == 6 {} else if d == 7 {} else if d == 8 {} else {}
    }
  }

  /** The text of a number reads back as that number, without a leading zero
      unless the number is zero. */
  lemma {:induction false} NumberTextValue(n: nat)
    ensures DigitsValue(NumberText(n)) == n
    ensures NumberText(n)[0] == '0' <==> n == 0
    decreases n
  {
    var r := NumberText(n);
    if n < 10 {
      DigitCharValue(n);
    } else {
      NumberTextValue(n / 10);
      DigitCharValue(n % 10);
      var init := NumberText(n / 10);
      assert r[..|r| - 1] == init;
      assert r[0] == init[0];
    }
  }
}
