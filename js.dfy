/** JavaScript value semantics the utilities rely on: numbers, string
    conversion, truthiness, `String.prototype.indexOf` and `toLowerCase`.
    The host's number parser and number printer are parameters (`Host`). */
module Js {

  /** An IEEE double as far as these utilities can observe it. Negative zero
      is not distinguished from zero. */
  datatype Number = NaN | PosInf | NegInf | Finite(value: real)

  /** The JavaScript values that reach the utilities. `Obj(text)` is an object
      whose `toString()` yields `text`. */
  datatype JsValue =
    | Undefined
    | Null
    | Bool(b: bool)
    | Num(n: Number)
    | Str(s: string)
    | Obj(text: string)

  /** A value that may be absent (null in the source). */
  datatype Option<T> = None | Some(value: T)

  /** The host functions left uninterpreted: `parseFloat` on a string, and
      the decimal printing of a finite, non-zero number. */
  datatype Host = Host(parseFloat: string -> Number, finiteToString: real -> string)

  /** Number::toString: the special values are printed by the language
      itself, every other value by the host's printer. */
  function NumberToString(h: Host, n: Number): string
  {
    match n
    case NaN => "NaN"
    case PosInf => "Infinity"
    case NegInf => "-Infinity"
    case Finite(x) => if x == 0.0 then "0" else h.finiteToString(x)
  }

  /** The abstract operation ToString (also what `v.toString()` returns for
      every value that has that method). */
  function ToString(h: Host, v: JsValue): string
  {
    match v
    case Undefined => "undefined"
    case Null => "null"
    case Bool(b) => if b then "true" else "false"
    case Num(n) => NumberToString(h, n)
    case Str(s) => s
    case Obj(text) => text
  }

  /** `!!n` for a number: NaN and zero are falsy. */
  predicate NumberTruthy(n: Number)
  {
    n != NaN && n != Finite(0.0)
  }

  /** `!!v`: undefined, null, false, NaN, zero and the empty string are falsy. */
  predicate Truthy(v: JsValue)
  {
    match v
    case Undefined => false
    case Null => false
    case Bool(b) => b
    case Num(n) => NumberTruthy(n)
    case Str(s) => s != ""
    case Obj(_) => true
  }

  /** The global `parseFloat(v)`: the argument is converted to a string first. */
  function ParseFloat(h: Host, v: JsValue): Number
  {
    h.parseFloat(ToString(h, v))
  }

  /** `t` occurs in `s` starting at index `i`. */
  predicate OccursAt(s: string, t: string, i: int)
  {
    0 <= i && i + |t| <= |s| && s[i..i + |t|] == t
  }

  predicate Contains(s: string, t: string)
  {
    exists i :: 0 <= i <= |s| && OccursAt(s, t, i)
  }

  /** `s.indexOf(t, from)`: the first occurrence of `t` at or after `from`,
      or -1 when there is none. */
  function IndexOfFrom(s: string, t: string, from: nat): (r: int)
    requires from <= |s|
    ensures r == -1 <==> forall i :: from <= i ==> !OccursAt(s, t, i)
    ensures r != -1 ==> from <= r && OccursAt(s, t, r)
    ensures r != -1 ==> forall i :: from <= i < r ==> !OccursAt(s, t, i)
    decreases |s| - from
  {
    if from + |t| > |s| then -1
    else if s[from..from + |t|] == t then assert OccursAt(s, t, from); from
    else IndexOfFrom(s, t, from + 1)
  }

  /** `s.indexOf(t)`. */
  function IndexOf(s: string, t: string): (r: int)
  {
    IndexOfFrom(s, t, 0)
  }

  /** `s.indexOf(t) === -1` exactly when `t` does not occur in `s`, and a
      non-negative answer is the first occurrence. */
  lemma IndexOfSpec(s: string, t: string)
    ensures IndexOf(s, t) == -1 <==> !Contains(s, t)
    ensures IndexOf(s, t) != -1 ==>
      OccursAt(s, t, IndexOf(s, t)) && forall i :: 0 <= i < IndexOf(s, t) ==> !OccursAt(s, t, i)
  {
  }

  function LowerChar(c: char): char
  {
    if 'A' <= c <= 'Z' then (c as int - 'A' as int + 'a' as int) as char else c
  }

  /** `s.toLowerCase()` restricted to the ASCII letters. */
  function ToLower(s: string): string
  {
    seq(|s|, i requires 0 <= i < |s| => LowerChar(s[i]))
  }

  /** `a` and `b` are the same text up to ASCII case. */
  predicate EqualIgnoringCase(a: string, b: string)
  {
    |a| == |b| && forall i :: 0 <= i < |a| ==> LowerChar(a[i]) == LowerChar(b[i])
  }

  /** `t` occurs in `s` at index `i` up to ASCII case. */
  predicate OccursAtIgnoringCase(s: string, t: string, i: int)
  {
    0 <= i && i + |t| <= |s| && EqualIgnoringCase(s[i..i + |t|], t)
  }

  /** Searching the lowered text for a lower-case `t` is a case-insensitive
      search: it succeeds exactly when `t` occurs in `s` up to ASCII case. */
  lemma {:induction false} LoweredSearchIgnoresCase(s: string, t: string)
    requires forall k :: 0 <= k < |t| ==> LowerChar(t[k]) == t[k]
    ensures Contains(ToLower(s), t) <==> exists i :: OccursAtIgnoringCase(s, t, i)
  {
    var lowered := ToLower(s);
    forall i | 0 <= i && i + |t| <= |s|
      ensures OccursAt(lowered, t, i) <==> OccursAtIgnoringCase(s, t, i)
    {
      if OccursAt(lowered, t, i) {
        forall k | 0 <= k < |t|
          ensures LowerChar(s[i..i + |t|][k]) == LowerChar(t[k])
        {
          assert lowered[i..i + |t|][k] == lowered[i + k];
        }
      }
      if OccursAtIgnoringCase(s, t, i) {
        assert forall k :: 0 <= k < |t| ==> lowered[i..i + |t|][k] == t[k];
      }
    }
    if exists i :: OccursAtIgnoringCase(s, t, i) {
      var i :| OccursAtIgnoringCase(s, t, i);
      assert OccursAt(lowered, t, i);
    }
  }
}
