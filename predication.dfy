/**
 * The predicate combinators `or`, `and` and `not`. Each takes an ordered
 * list of predicates and returns a new predicate whose body is one
 * `some`/`every` scan over that list. The new predicate calls each input
 * predicate with the value alone, so whatever index it is itself called with
 * is never passed on.
 */
module Predication {
  import opened JsArray

  /** A predicate over values of type T, with its optional index argument. */
  type PredicateFn<-T> = (T, Index) -> bool

  /** The callback `(predicate) => predicate(value)` used by `or` and `and`. */
  function HoldsAt<T>(v: T): (f: PredicateFn<T> -> bool)
  {
    (p: PredicateFn<T>) => p(v, Absent)
  }

  /** The callback `(predicate) => !predicate(value)` used by `not`. */
  function FailsAt<T>(v: T): (f: PredicateFn<T> -> bool)
  {
    (p: PredicateFn<T>) => !p(v, Absent)
  }

  /** `or(...ps)`: some predicate holds of the value. */
  function Or<T(!new)>(ps: seq<PredicateFn<T>>): (q: PredicateFn<T>)
    ensures forall v, i :: q(v, i) <==> exists k :: 0 <= k < |ps| && ps[k](v, Absent)
  {
    (v, i) => Some(ps, HoldsAt(v))
  }

  /** `and(...ps)`: every predicate holds of the value. */
  function And<T(!new)>(ps: seq<PredicateFn<T>>): (q: PredicateFn<T>)
    ensures forall v, i :: q(v, i) <==> forall k :: 0 <= k < |ps| ==> ps[k](v, Absent)
  {
    (v, i) => Every(ps, HoldsAt(v))
  }

  /** `not(...ps)`: every predicate fails on the value. */
  function Not<T(!new)>(ps: seq<PredicateFn<T>>): (q: PredicateFn<T>)
    ensures forall v, i :: q(v, i) <==> forall k :: 0 <= k < |ps| ==> !ps[k](v, Absent)
  {
    (v, i) => Every(ps, FailsAt(v))
  }

  /** The negation of one predicate, index included. */
  function Negate<T>(p: PredicateFn<T>): (q: PredicateFn<T>)
  {
    (v, i) => !p(v, i)
  }

  /** The list of the negations of `ps`, position by position. */
  function Negations<T>(ps: seq<PredicateFn<T>>): (ns: seq<PredicateFn<T>>)
    ensures |ns| == |ps|
  {
    seq(|ps|, k requires 0 <= k < |ps| => Negate(ps[k]))
  }

  /** A one-argument function standing where a PredicateFn is expected, as
      TypeScript allows: the index it is handed is dropped. */
  function FromUnary<T(!new)>(f: T -> bool): (p: PredicateFn<T>)
    ensures forall v, i :: p(v, i) == f(v)
  {
    (v, i) => f(v)
  }

  /** With no predicates, `or` is false and `and` and `not` are true. */
  lemma EmptyIdentities<T(!new)>(v: T, i: Index)
    ensures !Or<T>([])(v, i)
    ensures And<T>([])(v, i)
    ensures Not<T>([])(v, i)
  {
  }

  /** A composite's answer does not depend on the index it is called with:
      it is the answer for no index at all. */
  lemma IndexNotForwarded<T(!new)>(ps: seq<PredicateFn<T>>, v: T, i: Index)
    ensures Or(ps)(v, i) == Or(ps)(v, Absent)
    ensures And(ps)(v, i) == And(ps)(v, Absent)
    ensures Not(ps)(v, i) == Not(ps)(v, Absent)
  {
  }

  /** `not` is the negation of `or` (De Morgan). */
  lemma NotIsNegatedOr<T(!new)>(ps: seq<PredicateFn<T>>, v: T, i: Index)
    ensures Not(ps)(v, i) == !Or(ps)(v, i)
  {
  }

  /** `not` is `and` over the negated predicates. */
  lemma NotIsAndOfNegations<T(!new)>(ps: seq<PredicateFn<T>>, v: T, i: Index)
    ensures Not(ps)(v, i) == And(Negations(ps))(v, i)
  {
    var ns := Negations(ps);
    forall k | 0 <= k < |ps|
      ensures ns[k](v, Absent) == !ps[k](v, Absent)
    {
    }
  }

  /** A single predicate under `or` or `and` answers as itself, called
      without its index. */
  lemma Singleton<T(!new)>(p: PredicateFn<T>, v: T, i: Index)
    ensures Or([p])(v, i) == p(v, Absent)
    ensures And([p])(v, i) == p(v, Absent)
    ensures Not([p])(v, i) == !p(v, Absent)
  {
    assert [p][0] == p;
  }

  /** `or` over a concatenation is the disjunction of the two halves. */
  lemma {:induction false} OrAppend<T(!new)>(ps: seq<PredicateFn<T>>, qs: seq<PredicateFn<T>>, v: T, i: Index)
    ensures Or(ps + qs)(v, i) == (Or(ps)(v, i) || Or(qs)(v, i))
  {
    var all := ps + qs;
    if Or(ps)(v, i) {
      var k :| 0 <= k < |ps| && ps[k](v, Absent);
      assert all[k] == ps[k];
    } else if Or(qs)(v, i) {
      var k :| 0 <= k < |qs| && qs[k](v, Absent);
      assert all[|ps| + k] == qs[k];
    } else {
      forall k | 0 <= k < |all|
        ensures !all[k](v, Absent)
      {
        if k < |ps| {
          assert all[k] == ps[k];
        } else {
          assert all[k] == qs[k - |ps|];
        }
      }
    }
  }

  /** `and` over a concatenation is the conjunction of the two halves. */
  lemma {:induction false} AndAppend<T(!new)>(ps: seq<PredicateFn<T>>, qs: seq<PredicateFn<T>>, v: T, i: Index)
    ensures And(ps + qs)(v, i) == (And(ps)(v, i) && And(qs)(v, i))
  {
    var all := ps + qs;
    if !And(ps)(v, i) {
      var k :| 0 <= k < |ps| && !ps[k](v, Absent);
      assert all[k] == ps[k];
    } else if !And(qs)(v, i) {
      var k :| 0 <= k < |qs| && !qs[k](v, Absent);
      assert all[|ps| + k] == qs[k];
    } else {
      forall k | 0 <= k < |all|
        ensures all[k](v, Absent)
      {
        if k < |ps| {
          assert all[k] == ps[k];
        } else {
          assert all[k] == qs[k - |ps|];
        }
      }
    }
  }

  /** Appending one predicate to `or` adds one disjunct. */
  lemma OrAppendOne<T(!new)>(ps: seq<PredicateFn<T>>, q: PredicateFn<T>, v: T, i: Index)
    ensures Or(ps + [q])(v, i) == (Or(ps)(v, i) || q(v, Absent))
  {
    OrAppend(ps, [q], v, i);
    Singleton(q, v, i);
  }

  /** Appending one predicate to `and` adds one conjunct. */
  lemma AndAppendOne<T(!new)>(ps: seq<PredicateFn<T>>, q: PredicateFn<T>, v: T, i: Index)
    ensures And(ps + [q])(v, i) == (And(ps)(v, i) && q(v, Absent))
  {
    AndAppend(ps, [q], v, i);
    Singleton(q, v, i);
  }

  /** A nested `or` as the last argument flattens into its parent. */
  lemma OrFlatten<T(!new)>(ps: seq<PredicateFn<T>>, qs: seq<PredicateFn<T>>, v: T, i: Index)
    ensures Or(ps + [Or(qs)])(v, i) == Or(ps + qs)(v, i)
  {
    OrAppendOne(ps, Or(qs), v, i);
    OrAppend(ps, qs, v, i);
  }

  /** A nested `and` as the last argument flattens into its parent. */
  lemma AndFlatten<T(!new)>(ps: seq<PredicateFn<T>>, qs: seq<PredicateFn<T>>, v: T, i: Index)
    ensures And(ps + [And(qs)])(v, i) == And(ps + qs)(v, i)
  {
    AndAppendOne(ps, And(qs), v, i);
    AndAppend(ps, qs, v, i);
  }

  /** Composites nest by the laws of the three combinators:
      `and(or(p1, p2), not(p3))` is `(p1 || p2) && !p3`. */
  lemma Nested<T(!new)>(p1: PredicateFn<T>, p2: PredicateFn<T>, p3: PredicateFn<T>, v: T, i: Index)
    ensures And([Or([p1, p2]), Not([p3])])(v, i) == ((p1(v, Absent) || p2(v, Absent)) && !p3(v, Absent))
  {
    var inner := [Or([p1, p2]), Not([p3])];
    assert inner[0] == Or([p1, p2]) && inner[1] == Not([p3]);
    assert [p1, p2][0] == p1 && [p1, p2][1] == p2;
    Singleton(p3, v, i);
  }

  /** `or` consults only the predicates up to the first that holds: replacing
      any predicate after the n-th, where n is the number `some` calls, leaves
      both the answer and the number of calls unchanged. */
  lemma {:induction false} OrShortCircuit<T(!new)>(ps: seq<PredicateFn<T>>, qs: seq<PredicateFn<T>>, v: T, i: Index)
    requires |qs| == |ps|
    requires qs[..SomeCalls(ps, HoldsAt(v))] == ps[..SomeCalls(ps, HoldsAt(v))]
    ensures SomeCalls(qs, HoldsAt(v)) == SomeCalls(ps, HoldsAt(v))
    ensures Or(qs)(v, i) == Or(ps)(v, i)
  {
    CallsDependOnPrefix(ps, qs, HoldsAt(v), true);
  }

  /** `and` consults only the predicates up to the first that fails. */
  lemma {:induction false} AndShortCircuit<T(!new)>(ps: seq<PredicateFn<T>>, qs: seq<PredicateFn<T>>, v: T, i: Index)
    requires |qs| == |ps|
    requires qs[..EveryCalls(ps, HoldsAt(v))] == ps[..EveryCalls(ps, HoldsAt(v))]
    ensures EveryCalls(qs, HoldsAt(v)) == EveryCalls(ps, HoldsAt(v))
    ensures And(qs)(v, i) == And(ps)(v, i)
  {
    CallsDependOnPrefix(ps, qs, HoldsAt(v), false);
  }

  /** `not` consults only the predicates up to the first that holds. */
  lemma {:induction false} NotShortCircuit<T(!new)>(ps: seq<PredicateFn<T>>, qs: seq<PredicateFn<T>>, v: T, i: Index)
    requires |qs| == |ps|
    requires qs[..EveryCalls(ps, FailsAt(v))] == ps[..EveryCalls(ps, FailsAt(v))]
    ensures EveryCalls(qs, FailsAt(v)) == EveryCalls(ps, FailsAt(v))
    ensures Not(qs)(v, i) == Not(ps)(v, i)
  {
    CallsDependOnPrefix(ps, qs, FailsAt(v), false);
  }

  /** Once some predicate holds, `or` is decided: the predicates after it
      can be dropped or followed by any others without changing the answer. */
  lemma OrDecidedByPrefix<T(!new)>(ps: seq<PredicateFn<T>>, rest: seq<PredicateFn<T>>, v: T, i: Index)
    requires Or(ps)(v, i)
    ensures Or(ps[..SomeCalls(ps, HoldsAt(v))] + rest)(v, i) == Or(ps)(v, i)
  {
    var n := SomeCalls(ps, HoldsAt(v));
    assert (ps[..n] + rest)[n - 1] == ps[n - 1];
  }

  /** Once some predicate fails, `and` is decided: the predicates after it
      can be dropped or followed by any others without changing the answer. */
  lemma AndDecidedByPrefix<T(!new)>(ps: seq<PredicateFn<T>>, rest: seq<PredicateFn<T>>, v: T, i: Index)
    requires !And(ps)(v, i)
    ensures And(ps[..EveryCalls(ps, HoldsAt(v))] + rest)(v, i) == And(ps)(v, i)
  {
    var n := EveryCalls(ps, HoldsAt(v));
    assert (ps[..n] + rest)[n - 1] == ps[n - 1];
  }

  /** Once some predicate holds, `not` is decided: the predicates after it
      can be dropped or followed by any others without changing the answer. */
  lemma NotDecidedByPrefix<T(!new)>(ps: seq<PredicateFn<T>>, rest: seq<PredicateFn<T>>, v: T, i: Index)
    requires !Not(ps)(v, i)
    ensures Not(ps[..EveryCalls(ps, FailsAt(v))] + rest)(v, i) == Not(ps)(v, i)
  {
    var n := EveryCalls(ps, FailsAt(v));
    assert (ps[..n] + rest)[n - 1] == ps[n - 1];
  }

  /** The scan of `some` (stop = true) or `every` (stop = false) over two
      equally long lists that agree on the elements it calls its callback on
      makes the same calls and gives the same answer. */
  lemma {:induction false} CallsDependOnPrefix<X>(xs: seq<X>, ys: seq<X>, f: X -> bool, stop: bool)
    requires |ys| == |xs|
    requires stop ==> ys[..SomeCalls(xs, f)] == xs[..SomeCalls(xs, f)]
    requires !stop ==> ys[..EveryCalls(xs, f)] == xs[..EveryCalls(xs, f)]
    ensures stop ==> SomeCalls(ys, f) == SomeCalls(xs, f) && Some(ys, f) == Some(xs, f)
    ensures !stop ==> EveryCalls(ys, f) == EveryCalls(xs, f) && Every(ys, f) == Every(xs, f)
  {
    if xs != [] {
      assert ys[0] == xs[0];
      if f(xs[0]) != stop {
        var n := if stop then SomeCalls(xs, f) else EveryCalls(xs, f);
        assert ys[1..][..n - 1] == ys[..n][1..];
        assert xs[1..][..n - 1] == xs[..n][1..];
        CallsDependOnPrefix(xs[1..], ys[1..], f, stop);
      }
    }
  }
}
