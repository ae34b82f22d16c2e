/** Decoded JSON values, and the few pieces of Python's semantics that both
    scripts apply to them: truth value, len(), set() and the `in` operator.
    Where Python raises an exception the model returns an Error. */
module PyJson {

  /** A value as produced by json.load (numbers restricted to integers). */
  datatype Value =
    | Null
    | Bool(b: bool)
    | Num(n: int)
    | Str(s: string)
    | Arr(items: seq<Value>)
    | Obj(fields: map<string, Value>)

  /** The exceptions the scripts can raise on a malformed review file. */
  datatype Error =
    | NotSized     // TypeError: len() of a number, a boolean or null
    | NotIterable  // TypeError: set() of a number, a boolean or null
    | Unhashable   // TypeError: set() of a list holding a list or an object
    | NoGet        // AttributeError: only an object has a .get method
    | BadIndex     // TypeError: a list or a string indexed by a string

  datatype Result<T> = Ok(value: T) | Err(error: Error) {
    predicate IsFailure() { Err? }

    function PropagateFailure<U>(): Result<U>
      requires Err?
    {
      Err(error)
    }

    function Extract(): T
      requires Ok?
    {
      value
    }
  }

  /** Python's truth value of a decoded value (`if rotation:`). */
  predicate Truthy(v: Value)
    // Sized values are true exactly when their len() is not zero.
    ensures Sized(v) ==> (Truthy(v) <==> Len(v) > 0)
    ensures v.Num? ==> (Truthy(v) <==> v.n != 0)
    ensures v.Null? ==> !Truthy(v)
  {
    match v
    case Null => false
    case Bool(b) => b
    case Num(n) => n != 0
    case Str(s) => s != []
    case Arr(items) => items != []
    case Obj(fields) => fields != map[]
  }

  /** The values len() accepts. */
  predicate Sized(v: Value) {
    v.Str? || v.Arr? || v.Obj?
  }

  /** `len(v)` on a value it accepts. */
  function Len(v: Value): nat
    requires Sized(v)
  {
    match v
    case Str(s) => |s|
    case Arr(items) => |items|
    case Obj(fields) => |fields|
  }

  /** The values a Python set can hold. */
  predicate Hashable(v: Value) {
    !v.Arr? && !v.Obj?
  }

  /** `d.get(key, default)` on an object. */
  function Get(m: map<string, Value>, key: string, default: Value): Value {
    if key in m then m[key] else default
  }

  /** `set(v)`: the characters of a string, the keys of an object, the
      elements of a list of hashable values; anything else raises. */
  function ToSet(v: Value): (r: Result<set<Value>>)
    ensures r.Ok? <==> (v.Str? || v.Obj? || (v.Arr? && forall i :: 0 <= i < |v.items| ==> Hashable(v.items[i])))
    ensures r.Ok? ==> forall x :: x in r.value ==> Hashable(x)
    ensures r.Ok? && v.Arr? ==> forall x :: x in r.value <==> x in v.items
    ensures r.Ok? && v.Obj? ==> forall k :: Str(k) in r.value <==> k in v.fields
    ensures r.Ok? && v.Obj? ==> forall x :: x in r.value ==> x.Str? && x.s in v.fields
    ensures r.Ok? && v.Str? ==> forall x :: x in r.value <==> exists i :: 0 <= i < |v.s| && x == Str([v.s[i]])
    ensures r.Ok? && v.Str? ==> forall x :: x in r.value ==> x.Str? && |x.s| == 1
  {
    match v
    case Str(s) => Ok(set i | 0 <= i < |s| :: Str([s[i]]))
    case Obj(m) => Ok(set k | k in m :: Str(k))
    case Arr(items) =>
      if forall i :: 0 <= i < |items| ==> Hashable(items[i]) then Ok(set x | x in items) else Err(Unhashable)
    case _ => Err(NotIterable)
  }

  /** `p` occurs in `s` starting at index `i`. */
  predicate OccursAt(p: string, s: string, i: int) {
    0 <= i && i + |p| <= |s| && s[i..i + |p|] == p
  }

  /** `p in s` for strings, searched front to back. */
  predicate IsSubstring(p: string, s: string)
    decreases |s|
  {
    p <= s || (s != [] && IsSubstring(p, s[1..]))
  }

  /** The search finds `p` exactly when it occurs somewhere in `s`. */
  lemma {:induction false} SubstringOccurs(p: string, s: string)
    decreases |s|
    ensures IsSubstring(p, s) <==> exists i :: OccursAt(p, s, i)
  {
    if p <= s {
      assert OccursAt(p, s, 0);
    } else if s != [] {
      SubstringOccurs(p, s[1..]);
      if IsSubstring(p, s[1..]) {
        var j :| OccursAt(p, s[1..], j);
        assert s[j + 1..j + 1 + |p|] == s[1..][j..j + |p|];
        assert OccursAt(p, s, j + 1);
      }
      if exists i :: OccursAt(p, s, i) {
        var i :| OccursAt(p, s, i);
        assert s[1..][i - 1..i - 1 + |p|] == s[i..i + |p|];
        assert OccursAt(p, s[1..], i - 1);
      }
    }
  }

  /** `name in v` on a value len() accepted: a key of an object, an element
      of a list, a substring of a string. */
  predicate Contains(v: Value, name: string)
    requires Sized(v)
    ensures v.Obj? ==> (Contains(v, name) <==> name in v.fields)
    ensures v.Arr? ==> (Contains(v, name) <==> exists i :: 0 <= i < |v.items| && v.items[i] == Str(name))
    ensures v.Str? ==> (Contains(v, name) <==> exists i :: OccursAt(name, v.s, i))
  {
    match v
    case Obj(m) => name in m
    case Arr(items) => Str(name) in items
    case Str(s) =>
      SubstringOccurs(name, s);
      IsSubstring(name, s)
  }
}
