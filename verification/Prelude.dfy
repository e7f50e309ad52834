/** Small generic helpers shared by the models. */
module Prelude {

  datatype Option<+T> = None | Some(value: T)

  function Max(a: int, b: int): int { if a >= b then a else b }

  function Min(a: int, b: int): int { if a <= b then a else b }

  /** No value occurs twice in s. */
  ghost predicate Distinct<T>(s: seq<T>) {
    forall i, j :: 0 <= i < j < |s| ==> s[i] != s[j]
  }

  /** The values of s as a set. */
  ghost function Elements<T>(s: seq<T>): set<T> { set x | x in s }

  /** s without every x. */
  function Except<T(==,!new)>(s: seq<T>, x: T): (r: seq<T>)
    ensures forall y :: y in r <==> y in s && y != x
  {
    if s == [] then [] else (if s[0] != x then [s[0]] else []) + Except(s[1..], x)
  }
}
