/** The parts of JavaScript's value semantics that the handlers in server.js
    depend on: truthiness (`if (!table || !id)`), property lookup on object
    literals (which also finds members inherited from `Object.prototype`),
    and how a request value becomes the integer a `WHERE key = ?` compares with. */
module Js {
  import opened Text

  /** A JSON request value. Numbers are modelled as integers. */
  datatype JsValue =
    | Undefined
    | Null
    | Bool(b: bool)
    | Num(n: int)
    | Str(s: string)
    | Obj(entries: seq<(string, JsValue)>)  // own properties in `Object.keys` order

  datatype Option<T> = None | Some(value: T)

  /** JavaScript's `!!v`. */
  predicate Truthy(v: JsValue)
  {
    match v
    case Undefined => false
    case Null => false
    case Bool(b) => b
    case Num(n) => n != 0
    case Str(s) => s != ""
    case Obj(_) => true
  }

  /** The guard `if (!a || !b || ...)` that every handler puts in front of its work:
      true when some required field is missing. */
  function MissingRequired(fields: seq<JsValue>): (missing: bool)
    ensures missing <==> exists i :: 0 <= i < |fields| && !Truthy(fields[i])
  {
    if fields == [] then false
    else if !Truthy(fields[0]) then true
    else
      var rest := MissingRequired(fields[1..]);
      assert forall i :: 1 <= i < |fields| ==> fields[i] == fields[1..][i - 1];
      rest
  }

  /** The names every object literal inherits from `Object.prototype`. */
  const ObjectPrototypeMembers: set<string> := {
    "constructor", "__proto__", "__defineGetter__", "__defineSetter__",
    "__lookupGetter__", "__lookupSetter__", "hasOwnProperty", "isPrototypeOf",
    "propertyIsEnumerable", "toLocaleString", "toString", "valueOf"
  }

  /** What `literal[key]` yields: an own property, an inherited member
      (a function or object, so truthy), or `undefined`. */
  datatype Lookup<T> = Own(value: T) | Inherited(name: string) | Missing {
    /** Whether `if (!literal[key])` lets the request through, for own values that are truthy. */
    predicate Found() { !Missing? }
  }

  function GetProperty<T>(literal: map<string, T>, key: string): (r: Lookup<T>)
    ensures r.Found() <==> key in literal || key in ObjectPrototypeMembers
    ensures r.Own? <==> key in literal
  {
    if key in literal then Own(literal[key])
    else if key in ObjectPrototypeMembers then Inherited(key)
    else Missing
  }

  /** `data.field` on a request object: the last entry with that key, as `JSON.parse` keeps it. */
  function Field(data: JsValue, key: string): (v: JsValue)
    ensures v != Undefined ==> data.Obj? && exists i :: 0 <= i < |data.entries| && data.entries[i] == (key, v)
    ensures data.Obj? && (exists i :: 0 <= i < |data.entries| && data.entries[i].0 == key) ==>
      exists i :: 0 <= i < |data.entries| && data.entries[i] == (key, v)
        && forall j :: i < j < |data.entries| ==> data.entries[j].0 != key
    ensures !data.Obj? || (forall i :: 0 <= i < |data.entries| ==> data.entries[i].0 != key) ==> v == Undefined
    decreases if data.Obj? then |data.entries| else 0
  {
    if !data.Obj? || data.entries == [] then Undefined
    else
      var n := |data.entries|;
      var last := data.entries[n - 1];
      if last.0 == key then last.1
      else
        var front := data.entries[..n - 1];
        var v := Field(Obj(front), key);
        assert forall i :: 0 <= i < n - 1 ==> front[i] == data.entries[i];
        v
  }

  /** `Object.keys(data)` paired with `Object.values(data)`; a value that is not an object has no keys here. */
  function Entries(data: JsValue): seq<(string, JsValue)>
  {
    if data.Obj? then data.entries else []
  }

  predicate IsDigit(c: char) { '0' <= c <= '9' }

  predicate AllDigits(s: string)
  {
    forall i :: 0 <= i < |s| ==> IsDigit(s[i])
  }

  /** The value of a string of decimal digits. */
  function DigitsValue(s: string): (n: nat)
    requires AllDigits(s)
    ensures s == [] ==> n == 0
  {
    if s == [] then 0
    else DigitsValue(s[..|s| - 1]) * 10 + (s[|s| - 1] as int - '0' as int)
  }

  /** The integer a request value stands for when it is bound to `WHERE key = ?`:
      numbers as they are, optionally signed decimal strings by their value,
      booleans as 1 and 0. `None` means the parameter equals no integer key. */
  function SqlKey(v: JsValue): (k: Option<int>)
    ensures v.Num? ==> k == Some(v.n)
    ensures v.Undefined? || v.Null? || v.Obj? ==> k.None?
  {
    match v
    case Num(n) => Some(n)
    case Bool(b) => Some(if b then 1 else 0)
    case Str(s) =>
      if s != [] && AllDigits(s) then Some(DigitsValue(s))
      else if |s| > 1 && s[0] == '-' && AllDigits(s[1..]) then Some(0 - DigitsValue(s[1..]) as int)
      else if |s| > 1 && s[0] == '+' && AllDigits(s[1..]) then Some(DigitsValue(s[1..]))
      else None
    case _ => None
  }
}
