/**
 * The JavaScript array built-ins the predicate utilities rely on:
 * `Array.prototype.some`, `every`, `includes` and `filter`, over an
 * immutable sequence. Each scans left to right, as the built-in does.
 * `Some`, `Every` and `Includes` are proved equal to their quantified
 * meaning; `Filter` is proved to keep exactly the passing elements, as a set.
 */
module JsArray {

  /** The index argument a callback receives: `filter` passes the element's
      position; a caller that passes only the value leaves it `undefined`. */
  datatype Index = Absent | At(k: nat)

  /** `xs.some(f)`: true as soon as one callback returns true. */
  function Some<X>(xs: seq<X>, f: X -> bool): (r: bool)
    ensures r <==> exists k :: 0 <= k < |xs| && f(xs[k])
  {
    if xs == [] then false
    else f(xs[0]) || Some(xs[1..], f)
  }

  /** `xs.every(f)`: false as soon as one callback returns false. */
  function Every<X>(xs: seq<X>, f: X -> bool): (r: bool)
    ensures r <==> forall k :: 0 <= k < |xs| ==> f(xs[k])
  {
    if xs == [] then true
    else f(xs[0]) && Every(xs[1..], f)
  }

  /** How many times `xs.some(f)` invokes its callback: up to and including
      the first element that passes, or all of them when none does. */
  function SomeCalls<X>(xs: seq<X>, f: X -> bool): (n: nat)
    ensures n <= |xs|
    ensures forall k :: 0 <= k < n - 1 ==> !f(xs[k])
    ensures n < |xs| ==> 0 < n && f(xs[n - 1])
    ensures Some(xs, f) <==> 0 < n && f(xs[n - 1])
  {
    if xs == [] then 0
    else if f(xs[0]) then 1
    else 1 + SomeCalls(xs[1..], f)
  }

  /** How many times `xs.every(f)` invokes its callback: up to and including
      the first element that fails, or all of them when none does. */
  function EveryCalls<X>(xs: seq<X>, f: X -> bool): (n: nat)
    ensures n <= |xs|
    ensures forall k :: 0 <= k < n - 1 ==> f(xs[k])
    ensures n < |xs| ==> 0 < n && !f(xs[n - 1])
    ensures Every(xs, f) <==> n == 0 || f(xs[n - 1])
  {
    if xs == [] then 0
    else if !f(xs[0]) then 1
    else 1 + EveryCalls(xs[1..], f)
  }

  /** `xs.includes(x)`, with the key type's own equality. */
  function Includes<X(==)>(xs: seq<X>, x: X): (r: bool)
    ensures r <==> x in xs
  {
    if xs == [] then false
    else xs[0] == x || Includes(xs[1..], x)
  }

  /** `xs.filter(p)`: the elements, in order, on which `p(element, position)`
      holds. */
  function Filter<X>(xs: seq<X>, p: (X, Index) -> bool): (r: seq<X>)
    ensures |r| <= |xs|
    ensures forall x :: x in r ==> exists k :: 0 <= k < |xs| && xs[k] == x && p(x, At(k))
    ensures forall k :: 0 <= k < |xs| && p(xs[k], At(k)) ==> xs[k] in r
  {
    FilterFrom(xs, p, 0)
  }

  /** The part of `xs.filter(p)` contributed by positions `start` onwards. */
  function FilterFrom<X>(xs: seq<X>, p: (X, Index) -> bool, start: nat): (r: seq<X>)
    requires start <= |xs|
    ensures |r| <= |xs| - start
    ensures forall x :: x in r ==> exists k :: start <= k < |xs| && xs[k] == x && p(x, At(k))
    ensures forall k :: start <= k < |xs| && p(xs[k], At(k)) ==> xs[k] in r
    decreases |xs| - start
  {
    if start == |xs| then []
    else (if p(xs[start], At(start)) then [xs[start]] else []) + FilterFrom(xs, p, start + 1)
  }
}
