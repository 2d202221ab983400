/** The small part of JavaScript's value semantics that the create-user
    handler relies on: truthiness (`!x`), strict equality (`===`), property
    lookup on an object, the rest pattern `{ k: _, ...rest }`, and what a
    `JSON.stringify` followed by `JSON.parse` does to an object. */
module Js {

  datatype Option<+T> = None | Some(value: T)

  /** A JavaScript value as it can reach the handler. `Num` is a finite
      number as parsing left it; `NonFinite` is `Infinity` or `-Infinity`,
      which `JSON.parse` produces for a literal too large for a double.
      Objects and arrays are `Composite`, carrying their JSON text;
      `FunctionRef` is a reference to a named function (a value JSON cannot
      hold). */
  datatype JsValue =
    | Undefined
    | Null
    | Bool(b: bool)
    | Num(x: real)
    | NonFinite(positive: bool)
    | Str(s: string)
    | Composite(json: string)
    | FunctionRef(name: string)

  /** A plain object, keyed by property name. */
  type JsObject = map<string, JsValue>

  /** `!!v`. JSON has no NaN, so a finite number is falsy exactly when it is
      zero (which covers `-0` as well); both infinities are truthy. */
  predicate Truthy(v: JsValue): (b: bool)
    ensures b ==> !v.Undefined? && !v.Null?
    ensures v.Str? ==> (b <==> |v.s| > 0)
    ensures v.NonFinite? || v.Composite? || v.FunctionRef? ==> b
  {
    match v
    case Undefined => false
    case Null => false
    case Bool(b) => b
    case Num(x) => x != 0.0
    case NonFinite(_) => true
    case Str(s) => s != ""
    case Composite(_) => true
    case FunctionRef(_) => true
  }

  /** `a === b`. Objects compare by reference; every composite value the
      handler sees comes from its own `JSON.parse`, so two of them are never
      the same reference and `===` between them is false. A function
      reference is identified by the function it names. */
  predicate StrictEquals(a: JsValue, b: JsValue): (r: bool)
    ensures r ==> a == b
    ensures r ==> !a.Composite?
    ensures a == b && !a.Composite? ==> r
  {
    match (a, b)
    case (Undefined, Undefined) => true
    case (Null, Null) => true
    case (Bool(x), Bool(y)) => x == y
    case (Num(x), Num(y)) => x == y
    case (NonFinite(p), NonFinite(q)) => p == q
    case (Str(x), Str(y)) => x == y
    case (FunctionRef(f), FunctionRef(g)) => f == g
    case _ => false
  }

  lemma StrictEqualsSymmetric(a: JsValue, b: JsValue)
    ensures StrictEquals(a, b) <==> StrictEquals(b, a)
  {
  }

  /** `===` is transitive (it is not reflexive: a composite is not `===` to
      itself as the handler sees it). */
  lemma StrictEqualsTransitive(a: JsValue, b: JsValue, c: JsValue)
    requires StrictEquals(a, b) && StrictEquals(b, c)
    ensures StrictEquals(a, c)
  {
  }

  /** `o.k`: a missing property reads as `undefined`. */
  function Get(o: JsObject, k: string): (v: JsValue)
    ensures v != Undefined ==> k in o
    ensures k in o ==> v == o[k]
  {
    if k in o then o[k] else Undefined
  }

  /** A value `JSON.parse` can produce. Exactly these are kept as object
      properties by `JSON.stringify`: `undefined` and functions are dropped. */
  predicate IsParsed(v: JsValue) {
    !v.Undefined? && !v.FunctionRef?
  }

  /** A value `JSON.stringify` writes out as itself. */
  predicate IsJson(v: JsValue) {
    IsParsed(v) && !v.NonFinite?
  }

  /** What a kept property value reads back as: an infinity is written as
      `null`, everything else as itself. */
  function Serialise(v: JsValue): (r: JsValue)
    requires IsParsed(v)
    ensures IsJson(r)
    ensures IsJson(v) ==> r == v
    ensures v.NonFinite? ==> r == Null
  {
    if v.NonFinite? then Null else v
  }

  predicate IsParsedObject(o: JsObject) {
    forall k :: k in o ==> IsParsed(o[k])
  }

  predicate IsJsonObject(o: JsObject) {
    forall k :: k in o ==> IsJson(o[k])
  }

  /** `JSON.parse(JSON.stringify(o))` for a plain object: a property whose
      value JSON can hold survives, an infinity turning into `null`; a
      property holding `undefined` or a function disappears. */
  function Stringify(o: JsObject): (r: JsObject)
    ensures IsJsonObject(r)
    ensures forall k :: k in o && IsParsed(o[k]) ==> k in r && r[k] == Serialise(o[k])
    ensures forall k :: k in o && !IsParsed(o[k]) ==> k !in r
    ensures forall k :: k in r ==> k in o
  {
    map k | k in o && IsParsed(o[k]) :: Serialise(o[k])
  }

  /** Serialising an object that already holds only JSON values and parsing
      it back gives the same object. */
  lemma StringifyIdentityOnJson(o: JsObject)
    requires IsJsonObject(o)
    ensures Stringify(o) == o
  {
  }

  /** `JSON.parse(JSON.stringify(a))` for an array of plain objects. */
  function StringifyAll(a: seq<JsObject>): (r: seq<JsObject>)
    ensures |r| == |a|
    ensures forall i :: 0 <= i < |a| ==> r[i] == Stringify(a[i])
  {
    if |a| == 0 then [] else [Stringify(a[0])] + StringifyAll(a[1..])
  }

  /** Pushing an object and then serialising the array serialises the
      object after the rest. */
  lemma StringifyAllAppend(a: seq<JsObject>, o: JsObject)
    ensures StringifyAll(a + [o]) == StringifyAll(a) + [Stringify(o)]
  {
    assert forall i :: 0 <= i < |a| ==> (a + [o])[i] == a[i];
  }

  /** An array of objects that holds only JSON values is written back as it
      was read. */
  lemma StringifyAllIdentityOnJson(a: seq<JsObject>)
    requires forall i :: 0 <= i < |a| ==> IsJsonObject(a[i])
    ensures StringifyAll(a) == a
  {
    forall i | 0 <= i < |a|
      ensures StringifyAll(a)[i] == a[i]
    {
      StringifyIdentityOnJson(a[i]);
    }
  }

  /** `const { k: _, ...rest } = o`: every own property except `k`. */
  function Omit(o: JsObject, k: string): (r: JsObject)
    ensures k !in r
    ensures forall j :: j in o && j != k ==> j in r && r[j] == o[j]
    ensures forall j :: j in r ==> j in o
  {
    o - {k}
  }

  /** Omitting a key the object does not have leaves it as it was. */
  lemma OmitAbsentKey(o: JsObject, k: string)
    requires k !in o
    ensures Omit(o, k) == o
  {
  }
}
