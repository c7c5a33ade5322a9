# Predicate combinators and role checks, in Dafny

This project models the two utilities of a small TypeScript library.

- **Predicate combinators** (`or`, `and`, `not`). Each takes an ordered list of predicates and returns one new predicate. The new predicate runs a single `Array.prototype.some` or `every` scan over the list. Each predicate it calls, it calls with the value alone.
- **Role check** (`roleCheck(selector, roles)`). It returns a predicate that applies `selector` to its input and tests the key with `roles.includes`.

Neither keeps state of its own, so the model has only datatypes, functions and lemmas. One exception: a role check reads the caller's `roles` array again on every call, and the model takes that list as a fixed value (see "## Left out"). It has four modules:

- `JsArray` (`js_array.dfy`): the JavaScript built-ins the code relies on. `Some`, `Every`, `Includes` and `Filter` scan left to right, as the built-ins do. `Some`, `Every` and `Includes` are proved equal to their quantified meaning. `Filter` is proved to keep exactly the passing elements, as a set. `SomeCalls` and `EveryCalls` count how many times the scan invokes its callback, which is how short-circuiting is stated.
- `Predication` (`predication.dfy`): `PredicateFn<T>` is `(T, Index) -> bool`. `Index` is `Absent` (JavaScript's `undefined`) or `At(k)`. `Or`, `And` and `Not` call each input predicate with `Absent`, as the source's callbacks `predicate(value)` do. The module also holds the algebraic laws.
- `RoleValidation` (`role_validation.dfy`): `RoleCheck` and its membership laws.
- `PredicationExample` (`predication_example.dfy`): the users example from the doc comment. It also covers role checks combined with `filter` and `and`, and the equivalence of `roleCheck` with an `or` of equality tests.

## Model

| member | source | states |
|---|---|---|
| JsArray.Some | src/utils/predication.util.ts:4 | `some` is true exactly when some element passes the callback |
| JsArray.Every | src/utils/predication.util.ts:8 | `every` is true exactly when every element passes the callback |
| JsArray.SomeCalls | src/utils/predication.util.ts:4 | `some` calls its callback on a prefix: all of it fails except possibly the last, and the scan stops early only on a pass; the answer is whether the last call passed |
| JsArray.EveryCalls | src/utils/predication.util.ts:8 | `every` calls its callback on a prefix: all of it passes except possibly the last, and the scan stops early only on a failure |
| JsArray.Includes | src/utils/role-validation.util.ts:5 | `includes` is true exactly when the key is an element of the list |
| JsArray.Filter | src/utils/predication.util.ts:45-51 | `filter` keeps only elements whose predicate holds at their own position, keeps every such element, and never grows the list |
| Predication.Or | src/utils/predication.util.ts:3-5 | `or(ps)(v, i)` holds iff some `p` in `ps` holds of `v` called without an index |
| Predication.And | src/utils/predication.util.ts:7-9 | `and(ps)(v, i)` holds iff every `p` in `ps` holds of `v` called without an index |
| Predication.Not | src/utils/predication.util.ts:11-13 | `not(ps)(v, i)` holds iff every `p` in `ps` fails on `v` called without an index |
| Predication.EmptyIdentities | src/utils/predication.util.ts:3-13 | `or()` is false and `and()` and `not()` are true for every value |
| Predication.IndexNotForwarded | src/utils/predication.util.ts:1-13 | a composite gives the same answer whatever index it is called with |
| Predication.NotIsNegatedOr | src/utils/predication.util.ts:11-13 | `not(ps)` is the negation of `or(ps)` (De Morgan) |
| Predication.NotIsAndOfNegations | src/utils/predication.util.ts:11-13 | `not(ps)` equals `and` over the negated predicates |
| Predication.Singleton | src/utils/predication.util.ts:3-13 | `or([p])` and `and([p])` answer as `p` without an index; `not([p])` is its negation |
| Predication.OrAppend | src/utils/predication.util.ts:3-5 | `or(ps + qs)` is `or(ps) \|\| or(qs)` |
| Predication.AndAppend | src/utils/predication.util.ts:7-9 | `and(ps + qs)` is `and(ps) && and(qs)` |
| Predication.OrAppendOne | src/utils/predication.util.ts:3-5 | `or(ps + [q])` is `or(ps) \|\| q` |
| Predication.AndAppendOne | src/utils/predication.util.ts:7-9 | `and(ps + [q])` is `and(ps) && q` |
| Predication.OrFlatten | src/utils/predication.util.ts:3-5 | `or(ps..., or(qs...))` equals `or(ps..., qs...)` |
| Predication.AndFlatten | src/utils/predication.util.ts:7-9 | `and(ps..., and(qs...))` equals `and(ps..., qs...)` |
| Predication.Nested | src/utils/predication.util.ts:3-13 | `and(or(p1, p2), not(p3))` is `(p1 \|\| p2) && !p3` |
| Predication.OrShortCircuit | src/utils/predication.util.ts:4 | predicates after the first that holds are never consulted: replacing them changes neither the answer nor the number of calls |
| Predication.AndShortCircuit | src/utils/predication.util.ts:8 | predicates after the first that fails are never consulted |
| Predication.NotShortCircuit | src/utils/predication.util.ts:12 | predicates after the first that holds are never consulted by `not` |
| Predication.OrDecidedByPrefix | src/utils/predication.util.ts:4 | when `or` holds, `or` over the predicates up to the first that holds, followed by any others, answers as `or` over the whole list |
| Predication.AndDecidedByPrefix | src/utils/predication.util.ts:8 | when `and` fails, `and` over the predicates up to the first that fails, followed by any others, answers as `and` over the whole list |
| Predication.NotDecidedByPrefix | src/utils/predication.util.ts:12 | when `not` fails, `not` over the predicates up to the first that holds, followed by any others, answers as `not` over the whole list |
| Predication.CallsDependOnPrefix | src/utils/predication.util.ts:4-12 | a `some` or `every` scan over two equally long lists that agree on the called prefix makes the same calls and gives the same answer |
| RoleValidation.RoleCheck | src/utils/role-validation.util.ts:1-6 | `roleCheck(selector, roles)(v)` holds iff `selector(v)` is an element of `roles` |
| RoleValidation.NoRolesRejectAll | src/utils/role-validation.util.ts:5 | with no roles, the check is false for every value |
| RoleValidation.SameRolesSameCheck | src/utils/role-validation.util.ts:5 | role lists with the same elements, in any order and with any repetition, give the same check |
| RoleValidation.MoreRolesAdmitMore | src/utils/role-validation.util.ts:5 | a value accepted with some roles is accepted with any superset of them |
| RoleValidation.ConcatenatedRoles | src/utils/role-validation.util.ts:5 | the check over `roles1 + roles2` is the disjunction of the two checks |
| RoleValidation.SingleRole | src/utils/role-validation.util.ts:5 | the check over `[r]` is equality of the selected key with `r` |
| PredicationExample.AdultWriterOrEditorMeans | src/utils/predication.util.ts:39-46 | `and(isGreaterThan(17), or(isWriter, isRole(Editor)))` holds of users older than 17 who are writers or editors |
| PredicationExample.AdultWritersAndEditors | src/utils/predication.util.ts:31-47 | filtering the users with it keeps exactly Liza and Bill, in order |
| PredicationExample.OlderThan5WriterMeans | src/utils/predication.util.ts:39-50 | `and(isGreaterThan(5), isWriter)` holds of writers older than 5 |
| PredicationExample.OlderThan5Writers | src/utils/predication.util.ts:31-51 | filtering the users with it keeps exactly Liza |
| PredicationExample.SubscriberOmitted | src/utils/predication.util.ts:49-51 | Jane, a subscriber older than 5, is not kept by `greaterThan5AndSubscriberOrWriter` as written |
| PredicationExample.OlderThan5SubscriberOrWriterMeans | src/utils/predication.util.ts:49-51 | the composite the name describes holds of subscribers or writers older than 5 |
| PredicationExample.OlderThan5SubscribersOrWriters | src/utils/predication.util.ts:31-51 | filtering with the composite the name describes keeps exactly Jane and Liza, in order |
| PredicationExample.FilterPassesIndex | src/utils/predication.util.ts:1 | `filter` hands each element its position: a predicate that reads its index keeps every user |
| PredicationExample.CompositeDropsIndex | src/utils/predication.util.ts:4 | wrapped in `or`, the same predicate never sees an index and keeps no user |
| PredicationExample.EditorsAndWriters | src/utils/role-validation.util.ts:1-6 | filtering the users with `roleCheck(u => u.role, [Editor, Writer])` keeps exactly the editors and writers, in order |
| PredicationExample.AdultWriterCheck | src/utils/role-validation.util.ts:5 | `and(roleCheck(role, [Writer]), isGreaterThan(17))` rejects a 16-year-old writer and accepts a 25-year-old one |
| PredicationExample.RoleCheckIsOrOfEqualities | src/utils/role-validation.util.ts:5 | `roleCheck(selector, roles)` equals `or` over one `selector(v) === r` test per role |

## Findings

| source | as written | input that shows it | evidently intended | confidence | as-written member | corrected member |
|---|---|---|---|---|---|---|
| src/utils/predication.util.ts:49-51 | `greaterThan5AndSubscriberOrWriter` is computed with `and(isGreaterThan(5), isWriter)`, which has no subscriber test | Jane (age 7, Subscriber) is dropped and the result is only Liza | `and(isGreaterThan(5), or(isRole(Subscriber), isWriter))`, which keeps Jane and Liza | low: it is a doc-comment example, and the name may simply be stale; not executed | PredicationExample.SubscriberOmitted | PredicationExample.OlderThan5SubscribersOrWriters |

The `not` combinator is written as "every predicate fails", not as the negation of `or`. By De Morgan the two agree on every input, and `NotIsNegatedOr` proves this. So no choice between the readings is needed.

## Left out

- RoleValidation.RoleCheck: takes `roles` as a fixed sequence. The source's closure keeps a reference to the caller's array and reads it on every call, so pushing a role onto that array after `roleCheck` returns changes the check's later answers. The model does not capture that aliasing; its laws hold for the contents of the array at the time of each call.
- Exceptions thrown by user predicates or selectors. Dafny arrows are total. Short-circuiting is kept as which predicates get called (`SomeCalls`, `EveryCalls` and the `*ShortCircuit` lemmas), so a predicate that would throw but is never reached does not matter.
- The SameValueZero equality of `includes` (NaN equals NaN, +0 equals -0). Keys use the key type's own equality.
- TypeScript typing artefacts: `any` and variadic rest parameters. Lists of predicates are an explicit `seq`.
- The third callback argument of `some`, `every` and `filter` (the array itself). No callback in the source reads it.
- JsArray.Filter: its contract states membership and length but not the order or multiplicity of the result. The worked examples compute the exact ordered result instead.
- `age` is a JavaScript number. It is modelled as `int`, which is exact for the ages in the example.
