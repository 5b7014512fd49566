/** The parts of JavaScript object semantics the source depends on:
    the order in which `for...in` and `Object.keys` visit an object's own
    string keys (array indices first, ascending, then the other keys in
    creation order), plain objects used as dictionaries, and the dynamic
    values a request event carries, with their truthiness and property reads. */
module Js {
  import opened Base
  import ArrayOps

  // ------------------------------------------------------- array indices

  predicate IsDigit(c: char) { '0' <= c <= '9' }

  predicate AllDigits(s: string) {
    forall i :: 0 <= i < |s| ==> IsDigit(s[i])
  }

  /** The number a string of decimal digits denotes. */
  function DigitsValue(s: string): nat
    requires AllDigits(s)
  {
    if s == [] then 0
    else DigitsValue(s[..|s| - 1]) * 10 + (s[|s| - 1] as int - '0' as int)
  }

  /** The largest array index, 2^32 - 2. */
  const MaxArrayIndex: nat := 0xFFFF_FFFE

  /** A canonical decimal numeral (no sign, no leading zero) whose value is at
      most 2^32 - 2: the keys an ordinary object enumerates before all others. */
  predicate IsArrayIndex(s: string) {
    && |s| > 0
    && AllDigits(s)
    && (s[0] == '0' ==> |s| == 1)
    && DigitsValue(s) <= MaxArrayIndex
  }

  predicate IsNamedKey(s: string) { !IsArrayIndex(s) }

  function IndexValue(s: string): int {
    if IsArrayIndex(s) then DigitsValue(s) else 0
  }

  /** OrdinaryOwnPropertyKeys: array-index keys in ascending numeric order,
      then every other key in the order it was created. */
  function EnumerationOrder(keys: seq<string>): (r: seq<string>)
    ensures multiset(r) == multiset(keys)
    ensures forall i, j :: 0 <= i < j < |r| && IsArrayIndex(r[j]) ==> IsArrayIndex(r[i])
    ensures forall i, j :: 0 <= i < j < |r| && IsArrayIndex(r[i]) && IsArrayIndex(r[j])
                           ==> IndexValue(r[i]) <= IndexValue(r[j])
    ensures ArrayOps.Filter(r, IsNamedKey) == ArrayOps.Filter(keys, IsNamedKey)
  {
    var sorted := ArrayOps.SortBy(ArrayOps.Filter(keys, IsArrayIndex), IndexValue);
    var named := ArrayOps.Filter(keys, IsNamedKey);
    EnumerationOrderParts(keys, sorted, named);
    sorted + named
  }

  lemma EnumerationOrderParts(keys: seq<string>, sorted: seq<string>, named: seq<string>)
    requires sorted == ArrayOps.SortBy(ArrayOps.Filter(keys, IsArrayIndex), IndexValue)
    requires named == ArrayOps.Filter(keys, IsNamedKey)
    ensures multiset(sorted + named) == multiset(keys)
    ensures forall i, j :: 0 <= i < j < |sorted + named| && IsArrayIndex((sorted + named)[j])
                           ==> IsArrayIndex((sorted + named)[i])
    ensures forall i, j :: 0 <= i < j < |sorted + named| && IsArrayIndex((sorted + named)[i])
                           && IsArrayIndex((sorted + named)[j])
                           ==> IndexValue((sorted + named)[i]) <= IndexValue((sorted + named)[j])
    ensures ArrayOps.Filter(sorted + named, IsNamedKey) == named
  {
    ArrayOps.FilterPartition(keys, IsArrayIndex, IsNamedKey);
    SortedIndicesAreIndices(keys, sorted);
    NamedAfterIndices(sorted, named);
    IndicesBeforeNames(sorted, named);
  }

  lemma NamedAfterIndices(sorted: seq<string>, named: seq<string>)
    requires forall i :: 0 <= i < |sorted| ==> IsArrayIndex(sorted[i])
    requires forall i :: 0 <= i < |named| ==> IsNamedKey(named[i])
    ensures ArrayOps.Filter(sorted + named, IsNamedKey) == named
  {
    ArrayOps.FilterConcat(sorted, named, IsNamedKey);
    ArrayOps.FilterDropsAll(sorted, IsNamedKey);
    ArrayOps.FilterKeepsAll(named, IsNamedKey);
  }

  lemma SortedIndicesAreIndices(keys: seq<string>, sorted: seq<string>)
    requires sorted == ArrayOps.SortBy(ArrayOps.Filter(keys, IsArrayIndex), IndexValue)
    ensures forall i :: 0 <= i < |sorted| ==> IsArrayIndex(sorted[i])
  {
    var indices := ArrayOps.Filter(keys, IsArrayIndex);
    forall i | 0 <= i < |sorted|
      ensures IsArrayIndex(sorted[i])
    {
      assert sorted[i] in multiset(indices);
    }
  }

  lemma IndicesBeforeNames(sorted: seq<string>, named: seq<string>)
    requires forall i :: 0 <= i < |sorted| ==> IsArrayIndex(sorted[i])
    requires forall i :: 0 <= i < |named| ==> IsNamedKey(named[i])
    requires ArrayOps.SortedBy(sorted, IndexValue)
    ensures forall i, j :: 0 <= i < j < |sorted + named| && IsArrayIndex((sorted + named)[j])
                           ==> IsArrayIndex((sorted + named)[i]) && IndexValue((sorted + named)[i]) <= IndexValue((sorted + named)[j])
  {
    var r := sorted + named;
    forall i, j | 0 <= i < j < |r| && IsArrayIndex(r[j])
      ensures IsArrayIndex(r[i]) && IndexValue(r[i]) <= IndexValue(r[j])
    {
      if j < |sorted| {
        assert r[i] == sorted[i] && r[j] == sorted[j];
        ArrayOps.SortedAt(sorted, IndexValue, i, j);
      }
    }
  }

  /** An object without array-index keys is enumerated in creation order. */
  lemma EnumerationOrderOfNamedKeys(keys: seq<string>)
    requires forall i :: 0 <= i < |keys| ==> IsNamedKey(keys[i])
    ensures EnumerationOrder(keys) == keys
  {
    var r := EnumerationOrder(keys);
    assert forall i :: 0 <= i < |r| ==> IsNamedKey(r[i]) by {
      forall i | 0 <= i < |r|
        ensures IsNamedKey(r[i])
      {
        assert r[i] in multiset(keys);
      }
    }
    ArrayOps.FilterKeepsAll(r, IsNamedKey);
    ArrayOps.FilterKeepsAll(keys, IsNamedKey);
  }

  // ------------------------------------------------------- plain objects

  /** A plain object used as a dictionary: its own keys in creation order and their values. */
  datatype Dict<V> = Dict(order: seq<string>, entries: map<string, V>) {

    /** Every key appears once in `order`, and `order` lists exactly the stored keys. */
    ghost predicate Valid() {
      && (forall i, j :: 0 <= i < j < |order| ==> order[i] != order[j])
      && (forall k :: k in entries <==> k in order)
    }

    /** `o[k] = v`: a new key is appended to the creation order, an existing one keeps its place. */
    function Put(k: string, v: V): (d: Dict<V>)
      ensures Valid() ==> d.Valid()
      ensures d.entries == entries[k := v]
      ensures k in entries ==> d.order == order
      ensures k !in entries ==> d.order == order + [k]
    {
      Dict(if k in entries then order else order + [k], entries[k := v])
    }

    /** The keys `for (const k in o)` and `Object.keys(o)` visit, in visiting order. */
    function Keys(): (r: seq<string>)
      ensures Valid() ==> forall k :: k in r <==> k in entries
      ensures Valid() ==> forall i, j :: 0 <= i < j < |r| ==> r[i] != r[j]
    {
      var r := EnumerationOrder(order);
      assert forall k :: k in r <==> k in order by {
        forall k
          ensures k in r <==> k in order
        {
          assert k in r <==> k in multiset(r);
          assert k in order <==> k in multiset(order);
        }
      }
      assert Valid() ==> forall i, j :: 0 <= i < j < |r| ==> r[i] != r[j] by {
        if Valid() {
          forall i, j | 0 <= i < j < |r|
            ensures r[i] != r[j]
          {
            if r[i] == r[j] {
              DistinctCount(order, r[i]);
              TwiceCount(r, i, j);
              assert false;
            }
          }
        }
      }
      r
    }
  }

  function EmptyDict<V>(): (d: Dict<V>)
    ensures d.Valid() && d.entries == map[]
  {
    Dict([], map[])
  }

  lemma {:induction false} DistinctCount(s: seq<string>, x: string)
    requires forall i, j :: 0 <= i < j < |s| ==> s[i] != s[j]
    ensures multiset(s)[x] <= 1
  {
    if s != [] {
      assert s == [s[0]] + s[1..];
      DistinctCount(s[1..], x);
      if s[0] == x {
        assert x !in s[1..];
      }
    }
  }

  lemma {:induction false} TwiceCount(s: seq<string>, i: nat, j: nat)
    requires i < j < |s| && s[i] == s[j]
    ensures multiset(s)[s[i]] >= 2
  {
    assert s == s[..j] + [s[j]] + s[j + 1..];
    assert s[i] in s[..j];
  }

  // ------------------------------------------------------- dynamic values

  /** A JavaScript value as it arrives in a request event.  Numbers are
      integers here; functions, symbols and prototypes are not modelled. */
  datatype Value =
    | Undefined
    | Null
    | Bool(b: bool)
    | Num(n: int)
    | Str(s: string)
    | Arr(items: seq<Value>)
    | Obj(props: Dict<Value>)

  predicate IsNullish(v: Value) { v.Undefined? || v.Null? }

  /** JavaScript truthiness (ToBoolean). */
  predicate Truthy(v: Value) {
    match v
    case Undefined => false
    case Null => false
    case Bool(b) => b
    case Num(n) => n != 0
    case Str(s) => s != ""
    case Arr(_) => true
    case Obj(_) => true
  }

  /** `v[name]`: reading a property of null or undefined throws; an own entry
      of an object, or an element of an array or string at an own index, is
      returned; anything else reads as undefined here, including `length` and
      the inherited members, which no path of the program reads. */
  function Prop(v: Value, name: string): (r: Result<Value>)
    ensures r.Err? <==> IsNullish(v)
    ensures v.Obj? && name !in v.props.entries ==> r == Ok(Undefined)
    ensures v.Obj? && name in v.props.entries ==> r == Ok(v.props.entries[name])
    ensures v.Arr? && IsArrayIndex(name) && IndexValue(name) < |v.items| ==> r == Ok(v.items[IndexValue(name)])
  {
    match v
    case Undefined => Err(TypeError)
    case Null => Err(TypeError)
    case Obj(d) => Ok(if name in d.entries then d.entries[name] else Undefined)
    case Arr(items) =>
      Ok(if IsArrayIndex(name) && IndexValue(name) < |items| then items[IndexValue(name)] else Undefined)
    case Str(s) =>
      Ok(if IsArrayIndex(name) && IndexValue(name) < |s| then Str([s[IndexValue(name)]]) else Undefined)
    case _ => Ok(Undefined)
  }

  /** `v?.[name]`: optional chaining yields undefined on a nullish base instead of throwing. */
  function OptionalProp(v: Value, name: string): (r: Value)
    ensures IsNullish(v) ==> r == Undefined
    ensures !IsNullish(v) ==> Ok(r) == Prop(v, name)
  {
    if IsNullish(v) then Undefined else Prop(v, name).value
  }

  /** `Object.keys(v)[0]`, or None when `v` has no own enumerable string key.
      `Object.keys(null)` and `Object.keys(undefined)` throw. */
  function FirstOwnKey(v: Value): (r: Result<Option<string>>)
    ensures r.Err? <==> IsNullish(v)
    ensures v.Arr? ==> r == Ok(if v.items == [] then None else Some("0"))
    ensures v.Str? ==> r == Ok(if v.s == "" then None else Some("0"))
    ensures v.Bool? || v.Num? ==> r == Ok(None)
    ensures v.Obj? && v.props.Valid() ==> (r == Ok(None) <==> v.props.entries == map[])
    ensures v.Obj? && v.props.Valid() && r.Ok? && r.value.Some? ==> r.value.value in v.props.entries
  {
    match v
    case Undefined => Err(TypeError)
    case Null => Err(TypeError)
    case Obj(d) =>
      var ks := d.Keys();
      Ok(if ks == [] then None else Some(ks[0]))
    case Arr(items) => Ok(if items == [] then None else Some("0"))
    case Str(s) => Ok(if s == "" then None else Some("0"))
    case _ => Ok(None)
  }

  /** An object whose keys are all named yields the key it created first. */
  lemma FirstOwnKeyCreatedFirst(d: Dict<Value>)
    requires d.Valid() && d.order != []
    requires forall k :: k in d.entries ==> IsNamedKey(k)
    ensures FirstOwnKey(Obj(d)) == Ok(Some(d.order[0]))
  {
    forall i | 0 <= i < |d.order|
      ensures IsNamedKey(d.order[i])
    {
      assert d.order[i] in d.order;
    }
    EnumerationOrderOfNamedKeys(d.order);
  }

  /** An object with an array-index key yields its smallest array-index key. */
  lemma FirstOwnKeySmallestIndex(d: Dict<Value>, k: string)
    requires d.Valid() && k in d.entries && IsArrayIndex(k)
    ensures FirstOwnKey(Obj(d)).Ok? && FirstOwnKey(Obj(d)).value.Some?
    ensures var first := FirstOwnKey(Obj(d)).value.value;
      IsArrayIndex(first) && IndexValue(first) <= IndexValue(k)
  {
    var r := d.Keys();
    assert k in r;
    assert r == EnumerationOrder(d.order);
    IndicesLead(r, k);
    ObjectFirstKey(d, r);
  }

  /** A non-empty object yields the head of its enumeration order. */
  lemma ObjectFirstKey(d: Dict<Value>, r: seq<string>)
    requires r == d.Keys() && r != []
    ensures FirstOwnKey(Obj(d)) == Ok(Some(r[0]))
  {
  }

  /** In an enumeration order the head is an array index no larger than any index present. */
  lemma IndicesLead(r: seq<string>, k: string)
    requires forall i, j :: 0 <= i < j < |r| && IsArrayIndex(r[j]) ==> IsArrayIndex(r[i])
    requires forall i, j :: 0 <= i < j < |r| && IsArrayIndex(r[i]) && IsArrayIndex(r[j])
                           ==> IndexValue(r[i]) <= IndexValue(r[j])
    requires k in r && IsArrayIndex(k)
    ensures IsArrayIndex(r[0]) && IndexValue(r[0]) <= IndexValue(k)
  {
    var j :| 0 <= j < |r| && r[j] == k;
    if j > 0 {
      assert IsArrayIndex(r[0]);
    }
  }
}
