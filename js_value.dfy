/**
 * The values the program handles after MessagePack decoding, with the few
 * JavaScript operations the core applies to them: property access, indexing,
 * `Object.keys`, truthiness and numeric coercion.
 */
module JsValue {
  import opened Outcomes
  import opened Text

  /** A decoded value; `Undefined` is what a missing property reads as. */
  datatype Value =
    | Undefined
    | Null
    | Bool(b: bool)
    | Num(n: int)
    | Str(s: string)
    | Arr(items: seq<Value>)
    | Obj(entries: seq<(string, Value)>)

  predicate IsNullish(v: Value) {
    v.Undefined? || v.Null?
  }

  /** The value stored under `key` in an object's entries (the first one), or `Undefined`. */
  function Lookup(entries: seq<(string, Value)>, key: string): (r: Value)
    ensures r != Undefined ==> exists i :: 0 <= i < |entries| && entries[i] == (key, r)
    ensures (forall i :: 0 <= i < |entries| ==> entries[i].0 != key) ==> r == Undefined
  {
    if entries == [] then Undefined
    else if entries[0].0 == key then entries[0].1
    else Lookup(entries[1..], key)
  }

  /** `v.key` for a named property; reading a property of null or undefined throws, hence the requires. */
  function Get(v: Value, key: string): Value
    requires !IsNullish(v)
  {
    if v.Obj? then Lookup(v.entries, key) else Undefined
  }

  /**
   * The one-code-unit string `s[k]` gives. A code unit that is half of a surrogate pair is
   * no character of its own and stands as U+FFFD: a non-empty, non-numeric string like it.
   */
  function UnitString(u: CodeUnit): (r: Value)
    ensures r.Str? && |r.s| == 1
    ensures !(0xD800 <= u < 0xE000) ==> r.s[0] as int == u
  {
    if 0xD800 <= u < 0xE000 then Str([0xFFFD as char]) else Str([u as char])
  }

  /** `v[k]` for a numeric index; a string is indexed by UTF-16 code unit. */
  function At(v: Value, k: nat): (r: Value)
    requires !IsNullish(v)
    ensures v.Arr? && k < |v.items| ==> r == v.items[k]
    ensures v.Arr? && k >= |v.items| ==> r == Undefined
    ensures v.Str? ==> (r != Undefined <==> k < |Utf16(v.s)|)
  {
    match v
    case Arr(items) => if k < |items| then items[k] else Undefined
    case Obj(entries) => Lookup(entries, NatToString(k))
    case Str(s) => var u := Utf16(s); if k < |u| then UnitString(u[k]) else Undefined
    case _ => Undefined
  }

  /** The key/value pairs `Object.keys(v).map(k => [k, v[k]])` yields, in enumeration order. */
  function Entries(v: Value): (r: seq<(string, Value)>)
    ensures v.Obj? ==> r == v.entries
    ensures v.Arr? ==> |r| == |v.items|
    ensures v.Str? ==> |r| == |Utf16(v.s)|
    ensures !(v.Obj? || v.Arr? || v.Str?) ==> r == []
  {
    match v
    case Obj(entries) => entries
    case Arr(items) => seq(|items|, i requires 0 <= i < |items| => (NatToString(i), items[i]))
    case Str(s) =>
      var u := Utf16(s);
      seq(|u|, i requires 0 <= i < |u| => (NatToString(i), UnitString(u[i])))
    case _ => []
  }

  predicate Truthy(v: Value) {
    match v
    case Undefined => false
    case Null => false
    case Bool(b) => b
    case Num(n) => n != 0
    case Str(s) => s != ""
    case _ => true
  }

  /**
   * `Number(v)` restricted to the cases the core meets; `None` stands for NaN.
   * Strings, arrays and objects are all read as NaN here.
   */
  function ToNumber(v: Value): (r: Option<int>)
    ensures v.Num? ==> r == Some(v.n)
    ensures v.Undefined? ==> r == None
    ensures v.Null? ==> r == Some(0)
    ensures v.Bool? ==> r == Some(if v.b then 1 else 0)
    ensures r.Some? ==> v.Null? || v.Bool? || v.Num?
  {
    match v
    case Null => Some(0)
    case Bool(b) => Some(if b then 1 else 0)
    case Num(n) => Some(n)
    case _ => None
  }

  /** `v == n` (loose equality) for a number `n`: null and undefined equal no number. */
  predicate LooseEqualsNumber(v: Value, n: int) {
    !IsNullish(v) && ToNumber(v) == Some(n)
  }

  /** A number is loosely equal to `n` exactly when it is `n`. */
  lemma LooseEqualsNumberOnNumbers(m: int, n: int)
    ensures LooseEqualsNumber(Num(m), n) <==> m == n
  {
  }
}
